/** Python string operations the scripts rely on, stated over `seq<char>`. */
module Text {
  import opened Common

  /** Python's `str.isspace()`: the ASCII whitespace and separator controls plus the
      fixed list of Unicode space characters. */
  predicate IsSpace(c: char) {
    || ('\t' <= c <= '\r')
    || ('\U{1c}' <= c <= ' ')
    || c == '\U{85}' || c == '\U{a0}' || c == '\U{1680}'
    || ('\U{2000}' <= c <= '\U{200a}')
    || c == '\U{2028}' || c == '\U{2029}' || c == '\U{202f}' || c == '\U{205f}' || c == '\U{3000}'
  }

  predicate IsDigit(c: char) { '0' <= c <= '9' }
  predicate IsUpper(c: char) { 'A' <= c <= 'Z' }
  predicate IsLowerAscii(c: char) { 'a' <= c <= 'z' }

  /** Regular-expression class `[A-Za-z0-9]`. */
  predicate IsAlnum(c: char) { IsDigit(c) || IsUpper(c) || IsLowerAscii(c) }

  lemma AlnumIsNotSpace(c: char)
    requires IsAlnum(c)
    ensures !IsSpace(c)
  {
  }

  predicate AllAlnum(s: string) { forall i :: 0 <= i < |s| ==> IsAlnum(s[i]) }

  predicate AllSpace(s: string) { forall k :: 0 <= k < |s| ==> IsSpace(s[k]) }

  /** `str.lstrip()` */
  function TrimStart(s: string): (r: string)
    ensures |r| <= |s| && r == s[|s| - |r|..]
    ensures forall i :: 0 <= i < |s| - |r| ==> IsSpace(s[i])
    ensures r == [] || !IsSpace(r[0])
  {
    if |s| > 0 && IsSpace(s[0]) then
      var r := TrimStart(s[1..]);
      assert s[1..][|s| - 1 - |r|..] == s[|s| - |r|..];
      assert forall i :: 1 <= i < |s| - |r| ==> s[i] == s[1..][i - 1];
      r
    else s
  }

  /** `str.rstrip()` */
  function TrimEnd(s: string): (r: string)
    ensures |r| <= |s| && r == s[..|r|]
    ensures forall i :: |r| <= i < |s| ==> IsSpace(s[i])
    ensures r == [] || !IsSpace(r[|r| - 1])
  {
    if |s| > 0 && IsSpace(s[|s| - 1]) then TrimEnd(s[..|s| - 1]) else s
  }

  /** `str.strip()`: the longest middle slice that neither starts nor ends with whitespace. */
  function Strip(s: string): (r: string)
    ensures |r| <= |s|
    ensures r == [] || (!IsSpace(r[0]) && !IsSpace(r[|r| - 1]))
    ensures r == [] <==> AllSpace(s)
  {
    var t := TrimStart(s);
    var r := TrimEnd(t);
    assert r != [] ==> r[0] == t[0];
    r
  }

  /** What `Strip` keeps is one contiguous slice of its input, and everything it drops
      on either side is whitespace. */
  lemma StripIsSlice(s: string) returns (i: nat, j: nat)
    ensures i <= j <= |s| && Strip(s) == s[i..j]
    ensures forall k :: 0 <= k < i ==> IsSpace(s[k])
    ensures forall k :: j <= k < |s| ==> IsSpace(s[k])
  {
    var t := TrimStart(s);
    var r := TrimEnd(t);
    i := |s| - |t|;
    j := i + |r|;
    assert t == s[i..] && r == t[..|r|];
    forall k | j <= k < |s| ensures IsSpace(s[k]) {
      assert s[k] == t[k - i];
    }
  }

  /** A string that starts and ends with a non-space character (or is empty) is its own strip. */
  lemma StripNoop(s: string)
    requires s == [] || (!IsSpace(s[0]) && !IsSpace(s[|s| - 1]))
    ensures Strip(s) == s
  {
  }

  lemma StripIdempotent(s: string)
    ensures Strip(Strip(s)) == Strip(s)
  {
    StripNoop(Strip(s));
  }

  /** ASCII `str.lower()`. */
  function LowerChar(c: char): char {
    if IsUpper(c) then (c as int + 32) as char else c
  }

  function Lower(s: string): (r: string)
    ensures |r| == |s|
    ensures forall i :: 0 <= i < |s| ==> r[i] == LowerChar(s[i])
  {
    seq(|s|, i requires 0 <= i < |s| => LowerChar(s[i]))
  }

  predicate StartsWith(s: string, prefix: string) {
    |prefix| <= |s| && s[..|prefix|] == prefix
  }

  predicate EndsWith(s: string, suffix: string) {
    |suffix| <= |s| && s[|s| - |suffix|..] == suffix
  }

  /** `sub` occurs in `s` starting at index `k`. */
  predicate OccursAt(s: string, sub: string, k: int) {
    0 <= k && k + |sub| <= |s| && s[k..k + |sub|] == sub
  }

  /** `s.find(sub)` for a non-empty needle: the leftmost occurrence, if any. */
  function IndexOf(s: string, sub: string): (r: Option<nat>)
    requires |sub| > 0
    ensures r.Some? ==> OccursAt(s, sub, r.value)
    ensures r.Some? ==> forall k :: 0 <= k < r.value ==> !OccursAt(s, sub, k)
    ensures r.None? ==> forall k :: !OccursAt(s, sub, k)
    decreases |s|
  {
    if |s| < |sub| then None
    else if s[..|sub|] == sub then Some(0)
    else
      match IndexOf(s[1..], sub)
      case None =>
        assert forall k :: OccursAt(s, sub, k) && k > 0 ==> OccursAt(s[1..], sub, k - 1) by {
          forall k | OccursAt(s, sub, k) && k > 0 ensures OccursAt(s[1..], sub, k - 1) {
            assert s[1..][k - 1..k - 1 + |sub|] == s[k..k + |sub|];
          }
        }
        None
      case Some(i) =>
        assert s[1..][i..i + |sub|] == s[i + 1..i + 1 + |sub|];
        assert forall k :: 0 < k <= i && OccursAt(s, sub, k) ==> OccursAt(s[1..], sub, k - 1) by {
          forall k | 0 < k <= i && OccursAt(s, sub, k) ensures OccursAt(s[1..], sub, k - 1) {
            assert s[1..][k - 1..k - 1 + |sub|] == s[k..k + |sub|];
          }
        }
        Some(i + 1)
  }

  /** `sub in s` for a non-empty needle. */
  predicate Contains(s: string, sub: string)
    requires |sub| > 0
  {
    IndexOf(s, sub).Some?
  }

  lemma ContainsAt(s: string, sub: string, k: int)
    requires |sub| > 0 && OccursAt(s, sub, k)
    ensures Contains(s, sub)
  {
  }

  /** An occurrence inside a slice is an occurrence in the whole string. */
  lemma OccursInSlice(s: string, sub: string, a: int, b: int, k: int)
    requires 0 <= a <= b <= |s| && OccursAt(s[a..b], sub, k)
    ensures OccursAt(s, sub, a + k)
  {
    var t := s[a..b];
    assert forall j :: 0 <= j < |sub| ==> s[a + k + j] == t[k + j] == sub[j];
    assert s[a + k..a + k + |sub|] == sub;
  }

  lemma SliceIndex(s: string, a: int, b: int, i: int)
    ensures 0 <= a <= b <= |s| && 0 <= i < b - a ==> s[a..b][i] == s[a + i]
  {
  }

  /** A one-character needle occurs exactly where that character sits. */
  lemma OccursAtChar(s: string, c: char, k: int)
    ensures OccursAt(s, [c], k) <==> (0 <= k < |s| && s[k] == c)
  {
    if 0 <= k < |s| {
      assert s[k..k + 1] == [s[k]];
    }
  }

  lemma ContainsChar(s: string, c: char)
    ensures Contains(s, [c]) <==> c in s
  {
    if c in s {
      var k :| 0 <= k < |s| && s[k] == c;
      OccursAtChar(s, c, k);
    }
    if Contains(s, [c]) {
      OccursAtChar(s, c, IndexOf(s, [c]).value);
    }
  }

  /** `s.split(sep)` for a non-empty separator: the fields between successive
      leftmost non-overlapping occurrences of `sep`. */
  function SplitAll(s: string, sep: string): (r: seq<string>)
    requires |sep| > 0
    ensures |r| >= 1
    decreases |s|
  {
    match IndexOf(s, sep)
    case None => [s]
    case Some(i) => [s[..i]] + SplitAll(s[i + |sep|..], sep)
  }

  /** No field of a split holds the separator. */
  lemma {:induction false} SplitAllFieldsLack(s: string, sep: string)
    requires |sep| > 0
    ensures forall k :: 0 <= k < |SplitAll(s, sep)| ==> !Contains(SplitAll(s, sep)[k], sep)
    decreases |s|
  {
    match IndexOf(s, sep)
    case None =>
    case Some(i) =>
      var rest := s[i + |sep|..];
      SplitAllFieldsLack(rest, sep);
      assert !Contains(s[..i], sep) by {
        if Contains(s[..i], sep) {
          var k := IndexOf(s[..i], sep).value;
          OccursInSlice(s, sep, 0, i, k);
        }
      }
      var tail := SplitAll(rest, sep);
      assert SplitAll(s, sep) == [s[..i]] + tail;
      assert forall k :: 1 <= k < |tail| + 1 ==> ([s[..i]] + tail)[k] == tail[k - 1];
  }

  /** `sep.join(parts)` */
  function Join(parts: seq<string>, sep: string): string
  {
    if |parts| == 0 then ""
    else if |parts| == 1 then parts[0]
    else parts[0] + sep + Join(parts[1..], sep)
  }

  /** Joining the fields of a split restores the original string. */
  lemma {:induction false} JoinSplit(s: string, sep: string)
    requires |sep| > 0
    ensures Join(SplitAll(s, sep), sep) == s
    decreases |s|
  {
    match IndexOf(s, sep) {
      case None =>
      case Some(i) =>
        var rest := s[i + |sep|..];
        var tail := SplitAll(rest, sep);
        JoinSplit(rest, sep);
        JoinCons(s[..i], tail, sep);
        SliceAround(s, i, |sep|);
    }
  }

  lemma JoinCons(first: string, tail: seq<string>, sep: string)
    requires |tail| > 0
    ensures Join([first] + tail, sep) == first + sep + Join(tail, sep)
  {
    assert ([first] + tail)[1..] == tail;
  }

  /** A string is what comes before position `i`, the `n` characters there, and the rest. */
  lemma SliceAround(s: string, i: int, n: int)
    requires 0 <= i && 0 <= n && i + n <= |s|
    ensures s == s[..i] + s[i..i + n] + s[i + n..]
  {
  }

  /** The string splits into more than one field exactly when it contains the separator. */
  lemma SplitAllLength(s: string, sep: string)
    requires |sep| > 0
    ensures |SplitAll(s, sep)| >= 2 <==> Contains(s, sep)
  {
  }

  /** The first field of a split: `s == first + rest`, where the first field holds no
      separator and `rest` is empty or starts with the separator. */
  lemma SplitFirstField(s: string, sep: string) returns (rest: string)
    requires |sep| > 0
    ensures s == SplitAll(s, sep)[0] + rest
    ensures rest == "" || StartsWith(rest, sep)
  {
    match IndexOf(s, sep)
    case None =>
      rest := "";
    case Some(i) =>
      rest := s[i..];
      assert s == s[..i] + rest;
  }

  lemma SplitFirstIsPrefix(s: string, sep: string)
    requires |sep| > 0
    ensures StartsWith(s, SplitAll(s, sep)[0])
  {
    var rest := SplitFirstField(s, sep);
    assert s[..|SplitAll(s, sep)[0]|] == SplitAll(s, sep)[0];
  }

  lemma ConcatAssoc(a: string, b: string, c: string)
    ensures a + b + c == a + (b + c)
  {
  }

  /** The second field of a split: `s == f0 + sep + f1 + rest`, where `rest` is empty or
      starts with the separator. */
  lemma SplitSecondField(s: string, sep: string) returns (rest: string)
    requires |sep| > 0 && Contains(s, sep)
    ensures |SplitAll(s, sep)| >= 2
    ensures s == SplitAll(s, sep)[0] + sep + SplitAll(s, sep)[1] + rest
    ensures rest == "" || StartsWith(rest, sep)
  {
    var i := IndexOf(s, sep).value;
    var after := s[i + |sep|..];
    var fs := SplitAll(s, sep);
    assert fs == [s[..i]] + SplitAll(after, sep);
    assert fs[0] == s[..i] && fs[1] == SplitAll(after, sep)[0];
    rest := SplitFirstField(after, sep);
    assert s == s[..i] + sep + after;
    assert after == fs[1] + rest;
    ConcatAssoc(fs[0] + sep, fs[1], rest);
  }

  /** `s.split(sep, 1)` when the separator occurs: the text before and after its first occurrence. */
  function SplitFirst(s: string, sep: string): (r: Option<(string, string)>)
    requires |sep| > 0
    ensures r.None? <==> !Contains(s, sep)
    ensures r.Some? ==> s == r.value.0 + sep + r.value.1 && !Contains(r.value.0, sep)
    ensures r.Some? ==> forall k :: 0 <= k < |r.value.0| ==> !OccursAt(s, sep, k)
    ensures r.Some? ==> OccursAt(s, sep, |r.value.0|)
  {
    match IndexOf(s, sep)
    case None => None
    case Some(i) =>
      assert s == s[..i] + sep + s[i + |sep|..];
      assert !Contains(s[..i], sep) by {
        if Contains(s[..i], sep) {
          OccursInSlice(s, sep, 0, i, IndexOf(s[..i], sep).value);
        }
      }
      Some((s[..i], s[i + |sep|..]))
  }

  /** For a one-character separator, `SplitFirst` finds the only decomposition whose
      left part holds no separator. */
  lemma SplitFirstUnique(s: string, sep: string, a: string, b: string)
    requires |sep| == 1 && s == a + sep + b && !Contains(a, sep)
    ensures SplitFirst(s, sep) == Some((a, b))
  {
    assert OccursAt(s, sep, |a|) by {
      assert s[|a|..|a| + |sep|] == sep;
    }
    var i := IndexOf(s, sep).value;
    if i < |a| {
      assert s[i..i + 1] == a[i..i + 1];
      ContainsAt(a, sep, i);
    }
    assert s[..|a|] == a;
    assert s[|a| + |sep|..] == b;
  }

  /** With a one-character separator, splitting `a + sep + b` where `a` holds no separator
      gives the field `a` followed by the fields of `b`. */
  lemma SplitAllAfterField(a: string, sep: string, b: string)
    requires |sep| == 1 && !Contains(a, sep)
    ensures SplitAll(a + sep + b, sep) == [a] + SplitAll(b, sep)
  {
    SplitFirstUnique(a + sep + b, sep, a, b);
  }

  /** With a one-character separator, the last field is the text after the last separator. */
  lemma {:induction false} SplitAllLast(p: string, sep: string, x: string)
    requires |sep| == 1 && !Contains(x, sep)
    ensures var fs := SplitAll(p + sep + x, sep); fs[|fs| - 1] == x
    decreases |p|
  {
    var fs := SplitAll(p + sep + x, sep);
    match SplitFirst(p, sep) {
      case None =>
        SplitAllAfterField(p, sep, x);
        assert SplitAll(x, sep) == [x];
        LastOfCons(p, [x]);
      case Some((a, b)) =>
        var rest := b + sep + x;
        SplitAllLast(b, sep, x);
        var tail := SplitAll(rest, sep);
        assert fs == [a] + tail by {
          assert p + sep + x == a + sep + rest by {
            assert p == a + sep + b;
            ConcatAssoc(a + sep, b, sep);
            ConcatAssoc(a + sep, b + sep, x);
          }
          SplitAllAfterField(a, sep, rest);
        }
        LastOfCons(a, tail);
    }
  }

  lemma LastOfCons<T>(a: T, tail: seq<T>)
    requires |tail| > 0
    ensures ([a] + tail)[|tail|] == tail[|tail| - 1]
  {
  }

  /** `s.rfind(c)`: the position of the last occurrence of a character, if any. */
  function LastIndexOfChar(s: string, c: char): (r: Option<nat>)
    ensures r.None? <==> c !in s
    ensures r.Some? ==> r.value < |s| && s[r.value] == c && c !in s[r.value + 1..]
    decreases |s|
  {
    if |s| == 0 then None
    else if s[|s| - 1] == c then Some(|s| - 1)
    else
      var front := s[..|s| - 1];
      assert s == front + [s[|s| - 1]];
      match LastIndexOfChar(front, c)
      case None => None
      case Some(i) =>
        assert s[i + 1..] == front[i + 1..] + [s[|s| - 1]];
        Some(i)
  }

  /** The first occurrence of a character is where it sits when no copy comes earlier. */
  lemma IndexOfCharAt(s: string, c: char, i: nat)
    requires i < |s| && s[i] == c && c !in s[..i]
    ensures IndexOf(s, [c]) == Some(i)
  {
    OccursAtChar(s, c, i);
    forall k | 0 <= k < i ensures s[k] != c {
      assert s[k] == s[..i][k];
    }
    var r := IndexOf(s, [c]);
    assert r.Some? && r.value <= i;
    OccursAtChar(s, c, r.value);
  }

  /** The leftmost occurrence of `sep` in `a + sep + b`, when `a` holds none and no
      occurrence straddles the end of `a`, is the one right after `a`. */
  lemma SplitFirstAt(s: string, sep: string, a: string, b: string)
    requires |sep| > 0 && s == a + sep + b && !Contains(a, sep)
    requires forall k :: |a| - |sep| < k < |a| ==> !OccursAt(s, sep, k)
    ensures SplitFirst(s, sep) == Some((a, b))
  {
    assert OccursAt(s, sep, |a|) by {
      assert s[|a|..|a| + |sep|] == sep;
    }
    var i := IndexOf(s, sep).value;
    if i < |a| {
      assert i + |sep| <= |a|;
      assert a[i..i + |sep|] == s[i..i + |sep|];
      ContainsAt(a, sep, i);
    }
    assert s[..|a|] == a;
    assert s[|a| + |sep|..] == b;
  }

  /** Decimal digits of a natural number, most significant first (Python `str(n)`). */
  function DigitChar(d: nat): char
    requires d < 10
  {
    (48 + d) as char
  }

  function DigitValue(c: char): nat
    requires IsDigit(c)
  {
    c as int - 48
  }

  function NatToString(n: nat): (r: string)
    ensures |r| > 0
    ensures forall i :: 0 <= i < |r| ==> IsDigit(r[i])
    decreases n
  {
    if n < 10 then [DigitChar(n)] else NatToString(n / 10) + [DigitChar(n % 10)]
  }

  /** Python `str(i)` for an integer. */
  function IntToString(i: int): (r: string)
    ensures |r| > 0
    ensures forall k :: 0 <= k < |r| ==> IsDigit(r[k]) || r[k] == '-'
  {
    if i < 0 then "-" + NatToString(-i) else NatToString(i)
  }

  /** The value of a string of decimal digits. */
  function DigitsValue(ds: string): nat
    requires forall i :: 0 <= i < |ds| ==> IsDigit(ds[i])
  {
    if |ds| == 0 then 0 else DigitsValue(ds[..|ds| - 1]) * 10 + DigitValue(ds[|ds| - 1])
  }

  lemma {:induction false} DigitsValueOfNat(n: nat)
    ensures DigitsValue(NatToString(n)) == n
    decreases n
  {
    if n >= 10 {
      var s := NatToString(n);
      assert s[..|s| - 1] == NatToString(n / 10);
      DigitsValueOfNat(n / 10);
    }
  }

  /** `NatToString` is injective: distinct numbers print differently. */
  lemma NatToStringInjective(m: nat, n: nat)
    requires NatToString(m) == NatToString(n)
    ensures m == n
  {
    DigitsValueOfNat(m);
    DigitsValueOfNat(n);
  }

  /** Python's digit-part grammar for `int()`: digits, with single underscores between digits. */
  predicate IsDigitPart(s: string) {
    && |s| > 0
    && IsDigit(s[0]) && IsDigit(s[|s| - 1])
    && (forall i :: 0 <= i < |s| ==> IsDigit(s[i]) || s[i] == '_')
    && (forall i :: 0 <= i < |s| - 1 ==> !(s[i] == '_' && s[i + 1] == '_'))
  }

  function RemoveUnderscores(s: string): (r: string)
    requires forall i :: 0 <= i < |s| ==> IsDigit(s[i]) || s[i] == '_'
    ensures forall i :: 0 <= i < |r| ==> IsDigit(r[i])
  {
    if |s| == 0 then ""
    else if s[0] == '_' then RemoveUnderscores(s[1..])
    else [s[0]] + RemoveUnderscores(s[1..])
  }

  /** Plain digits have no underscores to remove. */
  lemma {:induction false} RemoveUnderscoresOfDigits(s: string)
    requires forall i :: 0 <= i < |s| ==> IsDigit(s[i])
    ensures RemoveUnderscores(s) == s
    decreases |s|
  {
    if |s| > 0 {
      assert forall i :: 0 <= i < |s| - 1 ==> s[1..][i] == s[i + 1];
      RemoveUnderscoresOfDigits(s[1..]);
    }
  }

  /** The information separators U+001C to U+001F. `str.isspace()` counts them as
      whitespace, but `int()` does not skip them, and they are not digits either. */
  predicate IsInfoSeparator(c: char) { '\U{1c}' <= c <= '\U{1f}' }

  predicate HasInfoSeparator(s: string) { exists k :: 0 <= k < |s| && IsInfoSeparator(s[k]) }

  /** The text `int()` accepts once its whitespace is trimmed: an optional sign, then a
      digit part. */
  predicate IsIntLiteral(t: string) {
    IsDigitPart(t) || (|t| > 0 && (t[0] == '+' || t[0] == '-') && IsDigitPart(t[1..]))
  }

  /** Python `int(text)` on base-10 text: surrounding whitespace, an optional sign and a
      digit part; anything else raises, modelled as `None`. An information separator
      anywhere in the text makes `int()` raise. It is not skipped as whitespace, so
      the parse would have to read it as a sign or a digit, and it is neither. */
  function ParseInt(text: string): (r: Option<int>)
    ensures r.Some? <==> !HasInfoSeparator(text) && IsIntLiteral(Strip(text))
    ensures Strip(text) == "" ==> r.None?
    ensures r.Some? && r.value < 0 ==> Strip(text)[0] == '-'
  {
    var t := Strip(text);
    if HasInfoSeparator(text) then None
    else if |t| > 0 && (t[0] == '-' || t[0] == '+') then
      var body := t[1..];
      if IsDigitPart(body) then
        var n: int := DigitsValue(RemoveUnderscores(body));
        Some(if t[0] == '-' then -n else n)
      else None
    else if IsDigitPart(t) then Some(DigitsValue(RemoveUnderscores(t)))
    else None
  }

  lemma NatDigitPart(n: nat)
    ensures IsDigitPart(NatToString(n))
    ensures DigitsValue(RemoveUnderscores(NatToString(n))) == n
  {
    RemoveUnderscoresOfDigits(NatToString(n));
    DigitsValueOfNat(n);
  }

  /** Printing an integer and reading it back gives the integer. */
  lemma ParseIntToString(i: int)
    ensures ParseInt(IntToString(i)) == Some(i)
  {
    var s := IntToString(i);
    PrintedIsStripped(i);
    if i < 0 {
      ParseNegative(s, -i);
    } else {
      ParseNatural(s, i);
    }
  }

  lemma PrintedIsStripped(i: int)
    ensures Strip(IntToString(i)) == IntToString(i)
    ensures !HasInfoSeparator(IntToString(i))
  {
    var s := IntToString(i);
    assert !IsSpace(s[0]) && !IsSpace(s[|s| - 1]);
    StripNoop(s);
    forall k | 0 <= k < |s| ensures !IsInfoSeparator(s[k]) {
      if i < 0 {
        assert k == 0 || s[k] == NatToString(-i)[k - 1];
      }
    }
  }

  lemma ParseNegative(s: string, n: nat)
    requires s == "-" + NatToString(n) && Strip(s) == s && !HasInfoSeparator(s)
    ensures ParseInt(s) == Some(-(n as int))
  {
    assert s[0] == '-' && s[1..] == NatToString(n);
    NatDigitPart(n);
  }

  lemma ParseNatural(s: string, n: nat)
    requires s == NatToString(n) && Strip(s) == s && !HasInfoSeparator(s)
    ensures ParseInt(s) == Some(n)
  {
    assert IsDigit(s[0]);
    NatDigitPart(n);
  }

  /** A zero in front of a digit part leaves its value unchanged. */
  lemma {:induction false} LeadingZeroValue(ds: string)
    requires forall i :: 0 <= i < |ds| ==> IsDigit(ds[i])
    ensures DigitsValue("0" + ds) == DigitsValue(ds)
    decreases |ds|
  {
    if |ds| > 0 {
      var z := "0" + ds;
      assert z[..|z| - 1] == "0" + ds[..|ds| - 1];
      assert z[|z| - 1] == ds[|ds| - 1];
      LeadingZeroValue(ds[..|ds| - 1]);
    }
  }

  /** `int()` also accepts text `str()` never prints: surrounding whitespace, a `+` and
      leading zeros read as the plain number. */
  lemma ParseIntPaddedPlus(n: nat)
    ensures ParseInt(" +0" + NatToString(n) + "\n") == Some(n)
  {
    var ds := NatToString(n);
    var body := "0" + ds;
    var core := "+" + body;
    var text := " " + core + "\n";
    assert text == " +0" + ds + "\n";
    NatDigitPart(n);
    ZeroPrefixDigits(ds, body);
    StripPadded(core);
    assert core[1..] == body;
    NoSeparatorInDigits(body);
    NoSeparatorConcat("+", body);
    NoSeparatorConcat(" ", core);
    NoSeparatorConcat(" " + core, "\n");
    ParseSigned(text, core, body);
  }

  lemma ZeroPrefixDigits(ds: string, body: string)
    requires IsDigitPart(ds) && body == "0" + ds
    requires forall i :: 0 <= i < |ds| ==> IsDigit(ds[i])
    ensures IsDigitPart(body)
    ensures DigitsValue(RemoveUnderscores(body)) == DigitsValue(RemoveUnderscores(ds))
  {
    forall i | 0 <= i < |body| ensures IsDigit(body[i]) {
      if i > 0 { assert body[i] == ds[i - 1]; }
    }
    RemoveUnderscoresOfDigits(ds);
    RemoveUnderscoresOfDigits(body);
    LeadingZeroValue(ds);
  }

  lemma StripPadded(core: string)
    requires |core| > 0 && !IsSpace(core[0]) && !IsSpace(core[|core| - 1])
    ensures Strip(" " + core + "\n") == core
  {
    var text := " " + core + "\n";
    var u := core + "\n";
    assert text[1..] == u && u[0] == core[0];
    assert TrimStart(text) == u;
    assert u[..|u| - 1] == core;
    assert TrimEnd(u) == TrimEnd(core);
  }

  lemma ParseSigned(text: string, t: string, body: string)
    requires Strip(text) == t && |t| > 0 && t[0] == '+' && t[1..] == body
    requires IsDigitPart(body) && !HasInfoSeparator(text)
    ensures ParseInt(text) == Some(DigitsValue(RemoveUnderscores(body)))
  {
  }

  lemma ParseUnsigned(text: string)
    requires Strip(text) == text && IsDigitPart(text) && !HasInfoSeparator(text)
    ensures ParseInt(text) == Some(DigitsValue(RemoveUnderscores(text)))
  {
  }

  /** Underscores between digit groups are dropped when `RemoveUnderscores` reads the digits. */
  lemma {:induction false} RemoveUnderscoresAppend(a: string, b: string)
    requires forall i :: 0 <= i < |a| ==> IsDigit(a[i]) || a[i] == '_'
    requires forall i :: 0 <= i < |b| ==> IsDigit(b[i]) || b[i] == '_'
    ensures RemoveUnderscores(a + b) == RemoveUnderscores(a) + RemoveUnderscores(b)
    decreases |a|
  {
    if |a| == 0 {
      assert a + b == b;
    } else {
      assert (a + b)[0] == a[0];
      assert (a + b)[1..] == a[1..] + b;
      RemoveUnderscoresAppend(a[1..], b);
    }
  }

  /** A single `_` between two digit parts is a separator only: `int("1_000") == int("1000")`. */
  lemma ParseIntUnderscore(a: string, b: string)
    requires IsDigitPart(a) && IsDigitPart(b)
    ensures ParseInt(a + "_" + b) == ParseInt(a + b)
    ensures ParseInt(a + b).Some?
  {
    var u := a + "_" + b;
    var v := a + b;
    UnderscoreJoin(a, b, u, v);
    StripNoop(u);
    StripNoop(v);
    NoSeparatorInDigits(u);
    NoSeparatorInDigits(v);
    ParseUnsigned(u);
    ParseUnsigned(v);
  }

  lemma UnderscoreJoin(a: string, b: string, u: string, v: string)
    requires IsDigitPart(a) && IsDigitPart(b) && u == a + "_" + b && v == a + b
    ensures IsDigitPart(u) && IsDigitPart(v)
    ensures RemoveUnderscores(u) == RemoveUnderscores(v)
  {
    var ub := "_" + b;
    assert ub[1..] == b;
    assert u == a + ub;
    DigitPartAppend(a, ub, u);
    DigitPartAppend(a, b, v);
    assert RemoveUnderscores(ub) == RemoveUnderscores(b);
    RemoveUnderscoresAppend(a, ub);
    RemoveUnderscoresAppend(a, b);
  }

  lemma DigitPartAppend(a: string, b: string, ab: string)
    requires IsDigitPart(a) && ab == a + b
    requires (|b| > 0 && b[0] == '_' && IsDigitPart(b[1..])) || IsDigitPart(b)
    ensures IsDigitPart(ab)
  {
    forall i | 0 <= i < |ab| ensures IsDigit(ab[i]) || ab[i] == '_' {
      if i >= |a| {
        assert ab[i] == b[i - |a|];
        if b[0] == '_' && i > |a| { assert b[i - |a|] == b[1..][i - |a| - 1]; }
      }
    }
    forall i | 0 <= i < |ab| - 1 ensures !(ab[i] == '_' && ab[i + 1] == '_') {
      if i >= |a| {
        assert ab[i] == b[i - |a|] && ab[i + 1] == b[i + 1 - |a|];
        if b[0] == '_' && i > |a| {
          assert b[i - |a|] == b[1..][i - |a| - 1] && b[i + 1 - |a|] == b[1..][i - |a|];
        }
      }
    }
  }

  lemma NoSeparatorInDigits(s: string)
    requires forall i :: 0 <= i < |s| ==> IsDigit(s[i]) || s[i] == '_'
    ensures !HasInfoSeparator(s)
  {
  }

  lemma NoSeparatorConcat(a: string, b: string)
    requires !HasInfoSeparator(a) && !HasInfoSeparator(b)
    ensures !HasInfoSeparator(a + b)
  {
    forall k | 0 <= k < |a + b| ensures !IsInfoSeparator((a + b)[k]) {
      if k >= |a| { assert (a + b)[k] == b[k - |a|]; }
    }
  }

  /** `int()` raises on an information separator even where `strip()` would remove it. */
  lemma ParseIntRejectsInfoSeparator(n: nat)
    ensures ParseInt("\U{1c}" + NatToString(n)) == None
  {
    var text := "\U{1c}" + NatToString(n);
    assert IsInfoSeparator(text[0]);
  }

  /** The text a writer produces from lines: each line followed by a newline. */
  function Unlines(lines: seq<string>): string
  {
    if |lines| == 0 then "" else lines[0] + "\n" + Unlines(lines[1..])
  }

  /** Python's `'\n'.join(lines) + '\n'` writes the same text as `Unlines` when there is
      at least one line. */
  lemma {:induction false} JoinNewline(lines: seq<string>)
    requires |lines| > 0
    ensures Join(lines, "\n") + "\n" == Unlines(lines)
    decreases |lines|
  {
    if |lines| > 1 {
      JoinNewline(lines[1..]);
      assert Unlines(lines) == lines[0] + "\n" + Unlines(lines[1..]);
    }
  }

  /** Splitting written text at newlines gives back the lines, plus the empty field after
      the final newline, provided no line holds a newline of its own. */
  lemma {:induction false} SplitUnlines(lines: seq<string>)
    requires forall k :: 0 <= k < |lines| ==> '\n' !in lines[k]
    ensures SplitAll(Unlines(lines), "\n") == lines + [""]
  {
    if |lines| == 0 {
      assert IndexOf("", "\n") == None;
    } else {
      var l := lines[0];
      var rest := Unlines(lines[1..]);
      var s := Unlines(lines);
      assert s == l + "\n" + rest;
      ContainsChar(l, '\n');
      SplitFirstUnique(s, "\n", l, rest);
      var i := IndexOf(s, "\n").value;
      assert s[..i] == l;
      assert s[i + 1..] == rest;
      SplitUnlines(lines[1..]);
      assert lines == [l] + lines[1..];
    }
  }
}
