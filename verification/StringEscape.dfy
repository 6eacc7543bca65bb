/** String values in configuration files: escaping and unescaping in C and in kconfiglib. */
module StringEscape {
  import opened Wrappers

  predicate IsSpecial(c: char) {
    c == '"' || c == '\\'
  }

  /** A backslash before every quote and every backslash. */
  function Escaped(s: string): string {
    if s == "" then ""
    else (if IsSpecial(s[0]) then ['\\', s[0]] else [s[0]]) + Escaped(s[1..])
  }

  function Quoted(s: string): string {
    "\"" + Escaped(s) + "\""
  }

  function SpecialCount(s: string): nat {
    if s == "" then 0 else (if IsSpecial(s[0]) then 1 else 0) + SpecialCount(s[1..])
  }

  lemma {:induction false} EscapedLength(s: string)
    ensures |Escaped(s)| == |s| + SpecialCount(s)
  {
    if s != "" {
      EscapedLength(s[1..]);
    }
  }

  lemma {:induction false} EscapedSnoc(s: string, i: nat)
    requires i < |s|
    ensures Escaped(s[..i + 1]) == Escaped(s[..i]) + if IsSpecial(s[i]) then ['\\', s[i]] else [s[i]]
    ensures SpecialCount(s[..i + 1]) == SpecialCount(s[..i]) + if IsSpecial(s[i]) then 1 else 0
  {
    if i > 0 {
      EscapedSnoc(s[1..], i - 1);
      assert s[..i + 1][1..] == s[1..][..i] && s[..i][1..] == s[1..][..i - 1];
    } else {
      assert s[..1][1..] == "" && s[..0] == "";
    }
  }

  lemma {:induction false} CountGrows(s: string, i: nat)
    requires i <= |s|
    ensures SpecialCount(s[..i]) <= SpecialCount(s)
    decreases |s| - i
  {
    if i < |s| {
      EscapedSnoc(s, i);
      CountGrows(s, i + 1);
    } else {
      assert s[..i] == s;
    }
  }

  // sym_escape_string_value

  /** `strcspn`: how far the next quote or backslash is. */
  method Span(s: string, p: nat) returns (l: nat)
    requires p <= |s|
    ensures p + l <= |s| && (forall k | p <= k < p + l :: !IsSpecial(s[k]))
    ensures p + l < |s| ==> IsSpecial(s[p + l])
  {
    l := 0;
    while p + l < |s| && !IsSpecial(s[p + l])
      invariant p + l <= |s| && forall k | p <= k < p + l :: !IsSpecial(s[k])
    {
      l := l + 1;
    }
  }

  lemma {:induction false} SpanEscaped(s: string, p: nat, l: nat)
    requires p + l <= |s| && forall k | p <= k < p + l :: !IsSpecial(s[k])
    ensures Escaped(s[..p + l]) == Escaped(s[..p]) + s[p..p + l]
    ensures SpecialCount(s[..p + l]) == SpecialCount(s[..p])
  {
    if l > 0 {
      SpanEscaped(s, p, l - 1);
      EscapedSnoc(s, p + l - 1);
      assert s[p..p + l] == s[p..p + l - 1] + [s[p + l - 1]];
    }
  }

  /** The first pass: the size of the buffer, with both quotes and the terminator. */
  method EscapedSize(s: string) returns (reslen: nat)
    ensures reslen == |Quoted(s)| + 1
  {
    reslen := |s| + 2 + 1;
    var p := 0;
    assert s[..0] == "";
    while true
      invariant p <= |s| && reslen == |s| + 3 + SpecialCount(s[..p])
      decreases |s| - p
    {
      var l := Span(s, p);
      SpanEscaped(s, p, l);
      p := p + l;
      if p == |s| {
        break;
      }
      EscapedSnoc(s, p);
      reslen := reslen + 1;
      p := p + 1;
    }
    assert s[..p] == s;
    EscapedLength(s);
  }

  /** The buffer holds the opening quote and the escaped beginning of the string. */
  ghost predicate Written(res: array<char>, n: nat, s: string, p: nat)
    reads res
  {
    p <= |s| && n == 1 + |Escaped(s[..p])| && n + 2 <= res.Length && res[..n] == "\"" + Escaped(s[..p])
  }

  /** `sym_escape_string_value`: the second pass fills the buffer from the first to the last byte. */
  method EscapeStringValue(s: string) returns (res: array<char>)
    ensures fresh(res) && res.Length == |Quoted(s)| + 1
    ensures res[..] == Quoted(s) + ['\0']
  {
    var reslen := EscapedSize(s);
    res := new char[reslen];
    res[0] := '"';
    var n: nat, p: nat := 1, 0;
    assert s[..0] == "" && res[..1] == "\"";
    while true
      invariant res.Length == |Quoted(s)| + 1 && Written(res, n, s, p)
      decreases |s| - p
    {
      n, p := CopyPlain(res, n, s, p);
      if p == |s| {
        break;
      }
      n := CopySpecial(res, n, s, p);
      p := p + 1;
    }
    assert s[..p] == s;
    n := Concat(res, n, "\"");
    res[n] := '\0';
    assert res[..] == res[..n] + ['\0'];
  }

  /** The characters before the next quote or backslash are copied. */
  method CopyPlain(res: array<char>, n: nat, s: string, p: nat) returns (m: nat, q: nat)
    requires Written(res, n, s, p) && res.Length == |Quoted(s)| + 1
    modifies res
    ensures p <= q && Written(res, m, s, q) && (q < |s| ==> IsSpecial(s[q]))
  {
    var l := Span(s, p);
    SpanEscaped(s, p, l);
    Room(s, p + l);
    m := Concat(res, n, s[p..p + l]);
    q := p + l;
    assert res[..m] == "\"" + (Escaped(s[..p]) + s[p..p + l]);
  }

  /** A backslash and the character it stands before are written. */
  method CopySpecial(res: array<char>, n: nat, s: string, p: nat) returns (m: nat)
    requires Written(res, n, s, p) && res.Length == |Quoted(s)| + 1 && p < |s| && IsSpecial(s[p])
    modifies res
    ensures Written(res, m, s, p + 1)
  {
    EscapedSnoc(s, p);
    Room(s, p + 1);
    m := Concat(res, n, ['\\', s[p]]);
    assert res[..m] == "\"" + (Escaped(s[..p]) + ['\\', s[p]]);
  }

  lemma {:induction false} Room(s: string, i: nat)
    requires i <= |s|
    ensures |Escaped(s[..i])| + 3 <= |Quoted(s)| + 1
  {
    EscapedLength(s);
    EscapedLength(s[..i]);
    CountGrows(s, i);
  }

  /** `strcat` and `strncat` behind the `n` characters that are there. */
  method Concat(res: array<char>, n: nat, text: string) returns (m: nat)
    requires n + |text| <= res.Length
    modifies res
    ensures m == n + |text| && res[..m] == old(res[..n]) + text
  {
    m := n;
    for k := 0 to |text|
      invariant m == n + k && res[..m] == old(res[..n]) + text[..k]
    {
      res[m] := text[k];
      assert res[..m + 1] == res[..m] + [text[k]];
      m := m + 1;
    }
    assert text[..|text|] == text;
  }

  // conf_set_sym_val

  /** The string up to the closing quote with escapes resolved; nothing without a closing quote. */
  function Unescaped(s: string): Option<string> {
    if s == "" then None
    else if s[0] == '"' then Some("")
    else if s[0] == '\\' then
      if |s| == 1 then None else Preceded([s[1]], Unescaped(s[2..]))
    else Preceded([s[0]], Unescaped(s[1..]))
  }

  function Preceded(front: string, r: Option<string>): Option<string> {
    match r
    case None => None
    case Some(t) => Some(front + t)
  }

  lemma {:induction false} PrecededTwice(a: string, b: string, r: Option<string>)
    ensures Preceded(a, Preceded(b, r)) == Preceded(a + b, r)
  {
    if r.Some? {
      assert a + (b + r.value) == (a + b) + r.value;
    }
  }

  lemma {:induction false} PlainUnescaped(s: string, l: nat)
    requires l <= |s| && forall k | 0 <= k < l :: !IsSpecial(s[k])
    ensures Unescaped(s) == Preceded(s[..l], Unescaped(s[l..]))
  {
    if l > 0 {
      PlainUnescaped(s[1..], l - 1);
      assert s[1..][l - 1..] == s[l..];
      PrecededTwice([s[0]], s[1..][..l - 1], Unescaped(s[l..]));
      assert [s[0]] + s[1..][..l - 1] == s[..l];
    } else {
      assert s[0..] == s;
      assert Unescaped(s).Some? ==> s[..0] + Unescaped(s).value == Unescaped(s).value;
    }
  }

  /** The buffer holds the text from `p` on, ended by a zero. */
  ghost predicate Holds(buf: array<char>, p: nat, text: string)
    reads buf
  {
    p + |text| < buf.Length && buf[p..p + |text|] == text && buf[p + |text|] == '\0' && '\0' !in text
  }

  lemma {:induction false} HoldsAt(buf: array<char>, p: nat, text: string)
    requires Holds(buf, p, text)
    ensures forall k | p <= k < p + |text| :: buf[k] == text[k - p] && buf[k] != '\0'
  {
    forall k | p <= k < p + |text| ensures buf[k] == text[k - p] && buf[k] != '\0' {
      assert buf[p..p + |text|][k - p] == buf[k];
      assert text[k - p] in text;
    }
  }

  /** `strlen`. */
  method Length(buf: array<char>, p: nat, ghost text: string) returns (l: nat)
    requires Holds(buf, p, text)
    ensures l == |text|
  {
    HoldsAt(buf, p, text);
    l := 0;
    while buf[p + l] != '\0'
      invariant l <= |text|
      decreases |text| - l
    {
      l := l + 1;
    }
  }

  /** `memmove(p2, p2 + 1, strlen(p2))`: one character is dropped. */
  method DropOne(buf: array<char>, p: nat, ghost text: string)
    requires text != "" && Holds(buf, p, text)
    modifies buf
    ensures Holds(buf, p, text[1..]) && buf[..p] == old(buf[..p]) && buf[p + |text|] == '\0'
  {
    var l := Length(buf, p, text);
    ghost var before := buf[..];
    for k := p to p + l
      invariant forall j | p <= j < k :: buf[j] == before[j + 1]
      invariant forall j | k <= j < buf.Length :: buf[j] == before[j]
      invariant buf[..p] == before[..p]
    {
      buf[k] := buf[k + 1];
    }
    Shifted(before, buf[..], p, text);
    assert buf[p..p + l - 1] == buf[..][p..p + l - 1];
  }

  lemma {:induction false} Shifted(before: string, after: string, p: nat, text: string)
    requires |before| == |after| && text != "" && '\0' !in text
    requires p + |text| < |before| && before[p..p + |text|] == text && before[p + |text|] == '\0'
    requires forall j | p <= j < p + |text| :: after[j] == before[j + 1]
    ensures after[p..p + |text| - 1] == text[1..] && after[p + |text| - 1] == '\0' && '\0' !in text[1..]
  {
    forall j | 0 <= j < |text| - 1 ensures after[p + j] == text[1..][j] {
      assert before[p..p + |text|][j + 1] == text[j + 1];
    }
    assert forall c | c in text[1..] :: c in text;
  }

  /** `strpbrk`: the next quote or backslash. */
  method FindSpecial(buf: array<char>, p: nat, ghost text: string) returns (p2: nat, found: bool)
    requires Holds(buf, p, text)
    ensures p <= p2 <= p + |text| && (forall k | 0 <= k < p2 - p :: !IsSpecial(text[k]))
    ensures found == (p2 < p + |text|) && (found ==> IsSpecial(text[p2 - p]))
  {
    HoldsAt(buf, p, text);
    p2 := p;
    while buf[p2] != '\0' && !IsSpecial(buf[p2])
      invariant p <= p2 <= p + |text| && forall k | 0 <= k < p2 - p :: !IsSpecial(text[k])
      decreases p + |text| - p2
    {
      p2 := p2 + 1;
    }
    found := buf[p2] != '\0';
  }

  /**
   * Up to `q` the buffer holds `done`, and resolving the rest completes the result; or a backslash was the last
   * character, and nothing is left.
   */
  ghost predicate Resolved(buf: array<char>, p: nat, q: nat, text: string, done: string, rest: string)
    reads buf
  {
    && p <= q && Holds(buf, q, rest)
    && (|| (rest == "" && Unescaped(text).None?)
        || (buf[p..q] == done && '\0' !in done && Unescaped(text) == Preceded(done, Unescaped(rest))))
  }

  lemma {:induction false} NothingResolved(buf: array<char>, p: nat, text: string)
    requires Holds(buf, p, text)
    ensures Resolved(buf, p, p, text, "", text)
  {
    if Unescaped(text).Some? {
      assert "" + Unescaped(text).value == Unescaped(text).value;
    }
  }

  /**
   * The string case of `conf_set_sym_val` behind the opening quote: escapes are resolved in place and the closing quote
   * becomes the terminator. Without a closing quote the line is refused.
   */
  method ParseString(buf: array<char>, p: nat, ghost text: string) returns (valid: bool)
    requires Holds(buf, p, text)
    modifies buf
    ensures valid == Unescaped(text).Some?
    ensures valid ==> Holds(buf, p, Unescaped(text).value)
    ensures buf[..p] == old(buf[..p])
  {
    var p2: nat := p;
    ghost var done, rest := "", text;
    NothingResolved(buf, p, text);
    while true
      invariant Resolved(buf, p, p2, text, done, rest) && buf[..p] == old(buf[..p])
      decreases |rest|
    {
      var found;
      p2, found, done, rest := SkipPlain(buf, p, p2, text, done, rest);
      if !found {
        return false;
      }
      if buf[p2] == '"' {
        CloseAt(buf, p, p2, text, done, rest);
        return true;
      }
      done, rest := DropEscape(buf, p, p2, text, done, rest);
      p2 := p2 + 1;
    }
  }

  lemma {:induction false} HoldsSplit(buf: array<char>, q: nat, text: string, l: nat)
    requires Holds(buf, q, text) && l <= |text|
    ensures Holds(buf, q + l, text[l..]) && buf[q..q + l] == text[..l] && '\0' !in text[..l]
  {
    assert buf[q..q + |text|][l..] == text[l..] && buf[q..q + |text|][..l] == text[..l];
    assert forall c | c in text[..l] || c in text[l..] :: c in text;
  }

  /** Characters that are neither a quote nor a backslash count as done. */
  lemma {:induction false} ResolvedSkip(buf: array<char>, p: nat, q: nat, text: string, done: string, rest: string, l: nat)
    requires Resolved(buf, p, q, text, done, rest) && l <= |rest| && forall k | 0 <= k < l :: !IsSpecial(rest[k])
    ensures Resolved(buf, p, q + l, text, done + rest[..l], rest[l..])
  {
    HoldsSplit(buf, q, rest, l);
    PlainUnescaped(rest, l);
    PrecededTwice(done, rest[..l], Unescaped(rest[l..]));
    assert buf[p..q + l] == buf[p..q] + buf[q..q + l];
  }

  /** `strpbrk` in the loop. */
  method SkipPlain(buf: array<char>, p: nat, q: nat, ghost text: string, ghost done: string, ghost rest: string)
    returns (q': nat, found: bool, ghost done': string, ghost rest': string)
    requires Resolved(buf, p, q, text, done, rest)
    ensures Resolved(buf, p, q', text, done', rest') && |rest'| <= |rest|
    ensures found <==> rest' != ""
    ensures found ==> buf[q'] == rest'[0] && IsSpecial(rest'[0])
    ensures !found ==> Unescaped(text).None?
  {
    q', found := FindSpecial(buf, q, rest);
    ghost var l := q' - q;
    done', rest' := done + rest[..l], rest[l..];
    ResolvedSkip(buf, p, q, text, done, rest, l);
    if found {
      HoldsAt(buf, q', rest');
    }
  }

  method CloseAt(buf: array<char>, p: nat, q: nat, ghost text: string, ghost done: string, ghost rest: string)
    requires Resolved(buf, p, q, text, done, rest) && rest != "" && rest[0] == '"'
    modifies buf
    ensures Unescaped(text).Some? && Holds(buf, p, Unescaped(text).value) && buf[..p] == old(buf[..p])
  {
    buf[q] := '\0';
    assert done + "" == done;
    assert buf[p..p + |done|] == done;
  }

  method DropEscape(buf: array<char>, p: nat, q: nat, ghost text: string, ghost done: string, ghost rest: string)
    returns (ghost done': string, ghost rest': string)
    requires Resolved(buf, p, q, text, done, rest) && rest != "" && rest[0] == '\\'
    modifies buf
    ensures Resolved(buf, p, q + 1, text, done', rest') && |rest'| < |rest| && buf[..p] == old(buf[..p])
  {
    DropOne(buf, q, rest);
    ResolvedPrefix(buf, p, q, old(buf[..q]));
    if |rest| == 1 {
      done', rest' := done, "";
    } else {
      done', rest' := done + [rest[1]], rest[2..];
      PrecededTwice(done, [rest[1]], Unescaped(rest'));
      TakeOne(buf, p, q, done, rest[1..]);
    }
  }

  lemma {:induction false} ResolvedPrefix(buf: array<char>, p: nat, q: nat, before: string)
    requires p <= q <= buf.Length && buf[..q] == before
    ensures buf[..p] == before[..p] && buf[p..q] == before[p..]
  {
    assert buf[..p] == buf[..q][..p];
    assert buf[p..q] == buf[..q][p..];
  }

  /** One more character of the buffer counts as done. */
  lemma {:induction false} TakeOne(buf: array<char>, p: nat, q: nat, done: string, text: string)
    requires p <= q && Holds(buf, q, text) && text != "" && buf[p..q] == done
    ensures Holds(buf, q + 1, text[1..]) && buf[p..q + 1] == done + [text[0]] && text[0] != '\0'
  {
    HoldsAt(buf, q, text);
    assert buf[q + 1..q + |text|] == buf[q..q + |text|][1..];
    assert buf[p..q + 1] == buf[p..q] + [buf[q]];
    assert forall c | c in text[1..] :: c in text;
  }

  /** What was escaped is read back, whatever follows the closing quote. */
  lemma {:induction false} UnescapeEscaped(s: string, tail: string)
    ensures Unescaped(Escaped(s) + "\"" + tail) == Some(s)
  {
    if s == "" {
      assert Escaped(s) + "\"" + tail == "\"" + tail;
    } else {
      var more := Escaped(s[1..]) + "\"" + tail;
      UnescapeEscaped(s[1..], tail);
      assert [s[0]] + s[1..] == s;
      if IsSpecial(s[0]) {
        assert Escaped(s) + "\"" + tail == ['\\', s[0]] + more;
        assert (['\\', s[0]] + more)[2..] == more;
      } else {
        assert Escaped(s) + "\"" + tail == [s[0]] + more;
        assert ([s[0]] + more)[1..] == more;
      }
    }
  }

  /** Writing a value with `sym_escape_string_value` and reading it with `conf_set_sym_val` gives the value back. */
  method WriteAndRead(s: string) returns (buf: array<char>, valid: bool)
    requires '\0' !in s
    ensures valid && Holds(buf, 1, s)
  {
    buf := EscapeStringValue(s);
    ghost var text := Escaped(s) + "\"";
    assert text + "" == text;
    UnescapeEscaped(s, "");
    EscapedNoZero(s);
    assert Quoted(s)[1..] == text;
    assert buf[1..1 + |text|] == buf[..][1..][..|text|] == text;
    valid := ParseString(buf, 1, text);
  }

  lemma {:induction false} EscapedNoZero(s: string)
    requires '\0' !in s
    ensures '\0' !in Escaped(s)
  {
    if s != "" {
      assert s[0] in s && forall c | c in s[1..] :: c in s;
      EscapedNoZero(s[1..]);
    }
  }

  // kconfiglib

  predicate HasPrefix(s: string, prefix: string) {
    |prefix| <= |s| && s[..|prefix|] == prefix
  }

  /** Python's `str.replace`: occurrences are replaced from left to right and do not overlap. */
  function Replace(s: string, old_: string, new_: string): string
    requires old_ != ""
  {
    if s == "" then ""
    else if HasPrefix(s, old_) then new_ + Replace(s[|old_|..], old_, new_)
    else [s[0]] + Replace(s[1..], old_, new_)
  }

  /** The escape in `_make_conf`. */
  function PythonEscape(s: string): string {
    Replace(Replace(s, "\\", "\\\\"), "\"", "\\\"")
  }

  /** The unescape in `load_config`. */
  function PythonUnescape(s: string): string {
    Replace(Replace(s, "\\\"", "\""), "\\\\", "\\")
  }

  /** Only the backslashes doubled. */
  function Doubled(s: string): string {
    Replace(s, "\\", "\\\\")
  }

  lemma {:induction false} ReplaceOneChar(s: string, c: char, new_: string)
    requires s != ""
    ensures Replace(s, [c], new_) == (if s[0] == c then new_ else [s[0]]) + Replace(s[1..], [c], new_)
  {
    assert s[..1] == [s[0]];
  }

  lemma {:induction false} DoubledCons(s: string)
    requires s != ""
    ensures Doubled(s) == (if s[0] == '\\' then "\\\\" else [s[0]]) + Doubled(s[1..])
  {
    ReplaceOneChar(s, '\\', "\\\\");
  }

  lemma {:induction false} QuoteConcat(a: string, b: string)
    requires forall i | 0 <= i < |a| :: a[i] != '"'
    ensures Replace(a + b, "\"", "\\\"") == a + Replace(b, "\"", "\\\"")
  {
    if a == "" {
      assert a + b == b;
    } else {
      assert (a + b)[1..] == a[1..] + b;
      ReplaceOneChar(a + b, '"', "\\\"");
      QuoteConcat(a[1..], b);
    }
  }

  /** The two replacements of kconfiglib escape as the C code does. */
  lemma {:induction false} PythonEscapesAlike(s: string)
    ensures PythonEscape(s) == Escaped(s)
  {
    if s != "" {
      PythonEscapesAlike(s[1..]);
      DoubledCons(s);
      var rest := Doubled(s[1..]);
      if s[0] == '\\' {
        QuoteConcat("\\\\", rest);
      } else if s[0] == '"' {
        ReplaceOneChar("\"" + rest, '"', "\\\"");
        assert ("\"" + rest)[1..] == rest;
      } else {
        QuoteConcat([s[0]], rest);
      }
    }
  }

  /** Removing the backslash of each escaped quote leaves the doubled backslashes. */
  lemma {:induction false} QuotesResolved(s: string)
    ensures Replace(Escaped(s), "\\\"", "\"") == Doubled(s)
  {
    if s != "" {
      QuotesResolved(s[1..]);
      DoubledCons(s);
      var rest := Escaped(s[1..]);
      var e := Escaped(s);
      if s[0] == '"' {
        assert e[..2] == "\\\"" && e[2..] == rest;
      } else if s[0] == '\\' {
        NoLeadingQuote(s[1..]);
        assert e[1..] == "\\" + rest && e[1..][1..] == rest;
        assert e[..2][1] == '\\' && !HasPrefix(e, "\\\"");
        assert rest != "" ==> e[1..][..2][1] == rest[0];
        assert !HasPrefix(e[1..], "\\\"");
      } else {
        assert e[1..] == rest && e[..1] == [s[0]];
        assert |e| >= 2 ==> e[..2][0] == s[0];
        assert !HasPrefix(e, "\\\"");
      }
    }
  }

  lemma {:induction false} NoLeadingQuote(s: string)
    ensures Escaped(s) != "" ==> Escaped(s)[0] != '"'
  {
  }

  lemma {:induction false} BackslashesHalved(s: string)
    ensures Replace(Doubled(s), "\\\\", "\\") == s
  {
    if s != "" {
      BackslashesHalved(s[1..]);
      DoubledCons(s);
      var d, rest := Doubled(s), Doubled(s[1..]);
      if s[0] == '\\' {
        assert d[..2] == "\\\\" && d[2..] == rest;
      } else {
        assert d[1..] == rest;
        assert |d| >= 2 ==> d[..2][0] == s[0];
        assert !HasPrefix(d, "\\\\");
      }
      assert [s[0]] + s[1..] == s;
    }
  }

  /** kconfiglib reads back what it or the C code has written. */
  lemma {:induction false} PythonReadsBack(s: string)
    ensures PythonUnescape(PythonEscape(s)) == s && PythonUnescape(Escaped(s)) == s
  {
    PythonEscapesAlike(s);
    QuotesResolved(s);
    BackslashesHalved(s);
  }
}
