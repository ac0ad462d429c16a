/** The parts of Go's `strings` package that the router relies on, for ASCII upper-casing and
    Unicode white space. */
module Strings {
  import opened Wrappers

  /** ASCII upper-casing of one character, as `strings.ToUpper` does on ASCII input. */
  function UpperChar(c: char): char {
    if 'a' <= c <= 'z' then (c as int - 32) as char else c
  }

  function Upper(s: string): (r: string)
    ensures |r| == |s|
    ensures forall i :: 0 <= i < |s| ==> r[i] == UpperChar(s[i])
  {
    if s == [] then [] else [UpperChar(s[0])] + Upper(s[1..])
  }

  /** Two strings that are equal up to the ASCII case of their letters. */
  predicate EqualIgnoringCase(a: string, b: string) {
    |a| == |b| && forall i :: 0 <= i < |a| ==> UpperChar(a[i]) == UpperChar(b[i])
  }

  lemma UpperOfEqualIgnoringCase(a: string, b: string)
    requires EqualIgnoringCase(a, b)
    ensures Upper(a) == Upper(b)
  {
  }

  lemma UpperIdempotent(s: string)
    ensures Upper(Upper(s)) == Upper(s)
  {
  }

  predicate HasPrefix(s: string, prefix: string) {
    |prefix| <= |s| && s[..|prefix|] == prefix
  }

  /** `strings.SplitN(s, sep, 2)`: the text before the first `sep`, and the text after it when
      there is one. */
  function SplitFirst(s: string, sep: char): (r: (string, Option<string>))
    ensures r.1.None? ==> r.0 == s && sep !in s
    ensures r.1.Some? ==> s == r.0 + [sep] + r.1.value && sep !in r.0
  {
    if s == [] then ("", None)
    else if s[0] == sep then ("", Some(s[1..]))
    else
      var (head, tail) := SplitFirst(s[1..], sep);
      ([s[0]] + head, tail)
  }

  lemma {:induction false} SplitFirstAt(head: string, sep: char, tail: string)
    requires sep !in head
    ensures SplitFirst(head + [sep] + tail, sep) == (head, Some(tail))
  {
    var s := head + [sep] + tail;
    if head == [] {
      assert s[1..] == tail;
    } else {
      assert s[1..] == head[1..] + [sep] + tail;
      SplitFirstAt(head[1..], sep, tail);
      assert [s[0]] + head[1..] == head;
    }
  }

  /** `strings.Split(s, sep)`: all the pieces between separators; never empty. */
  function Split(s: string, sep: char): (r: seq<string>)
    ensures |r| >= 1
    ensures forall i :: 0 <= i < |r| ==> sep !in r[i]
    decreases |s|
  {
    var (head, tail) := SplitFirst(s, sep);
    match tail
    case None => [head]
    case Some(t) => [head] + Split(t, sep)
  }

  /** `strings.Join(parts, sep)`. */
  function Join(parts: seq<string>, sep: char): (r: string)
    ensures |parts| > 0 ==> parts[0] <= r
    ensures |parts| > 1 ==> |r| > |parts[0]| && r[|parts[0]|] == sep
    ensures forall c :: c in r ==> c == sep || exists i :: 0 <= i < |parts| && c in parts[i]
  {
    if parts == [] then ""
    else if |parts| == 1 then parts[0]
    else parts[0] + [sep] + Join(parts[1..], sep)
  }

  lemma {:induction false} JoinSplit(s: string, sep: char)
    ensures Join(Split(s, sep), sep) == s
    decreases |s|
  {
    var (head, tail) := SplitFirst(s, sep);
    if tail.Some? {
      var rest := Split(tail.value, sep);
      JoinSplit(tail.value, sep);
      assert Split(s, sep) == [head] + rest;
      assert ([head] + rest)[1..] == rest;
    }
  }

  lemma {:induction false} SplitJoin(parts: seq<string>, sep: char)
    requires |parts| >= 1
    requires forall i :: 0 <= i < |parts| ==> sep !in parts[i]
    ensures Split(Join(parts, sep), sep) == parts
  {
    if |parts| > 1 {
      var rest := Join(parts[1..], sep);
      SplitFirstAt(parts[0], sep, rest);
      SplitJoin(parts[1..], sep);
      assert [parts[0]] + parts[1..] == parts;
    }
  }

  /** Go's `unicode.IsSpace`: the Unicode White_Space characters. */
  predicate IsSpace(c: char) {
    || '\t' <= c <= '\r'
    || c == ' '
    || c == '\U{0085}'
    || c == '\U{00A0}'
    || c == '\U{1680}'
    || '\U{2000}' <= c <= '\U{200A}'
    || c == '\U{2028}'
    || c == '\U{2029}'
    || c == '\U{202F}'
    || c == '\U{205F}'
    || c == '\U{3000}'
  }

  /** The number of white-space characters at the front of `s`. */
  function LeadingSpace(s: string): (n: nat)
    ensures n <= |s|
    ensures forall k :: 0 <= k < n ==> IsSpace(s[k])
    ensures n < |s| ==> !IsSpace(s[n])
  {
    if s != [] && IsSpace(s[0]) then 1 + LeadingSpace(s[1..]) else 0
  }

  /** The length of `s` without its trailing white space. */
  function TrailingSpaceStart(s: string): (n: nat)
    ensures n <= |s|
    ensures forall k :: n <= k < |s| ==> IsSpace(s[k])
    ensures n > 0 ==> !IsSpace(s[n - 1])
  {
    if s != [] && IsSpace(s[|s| - 1]) then TrailingSpaceStart(s[..|s| - 1]) else |s|
  }

  /** `r` occurs in `s` at offset `i`, with only white space before and after it. */
  predicate SpaceAround(s: string, i: nat, r: string) {
    && i + |r| <= |s|
    && s[i..i + |r|] == r
    && (forall k :: 0 <= k < i ==> IsSpace(s[k]))
    && (forall k :: i + |r| <= k < |s| ==> IsSpace(s[k]))
  }

  /** `strings.TrimSpace`: `s` without leading and trailing white space. */
  function TrimSpace(s: string): (r: string)
    ensures r != [] ==> !IsSpace(r[0]) && !IsSpace(r[|r| - 1])
    ensures exists i: nat :: SpaceAround(s, i, r)
  {
    var i := LeadingSpace(s);
    var t := s[i..];
    var j := TrailingSpaceStart(t);
    assert s[i..i + j] == t[..j];
    assert SpaceAround(s, i, t[..j]);
    t[..j]
  }

  /** Trimming only drops characters. */
  lemma TrimSpaceKeepsOut(s: string, c: char)
    requires c !in s
    ensures c !in TrimSpace(s)
  {
    var r := TrimSpace(s);
    var i: nat :| SpaceAround(s, i, r);
    assert forall k :: 0 <= k < |r| ==> r[k] == s[i + k];
  }

  lemma TrimSpaceIdempotent(s: string)
    ensures TrimSpace(TrimSpace(s)) == TrimSpace(s)
  {
    var r := TrimSpace(s);
    if r != [] {
      assert LeadingSpace(r) == 0;
      assert r[0..] == r;
      assert TrailingSpaceStart(r) == |r|;
    }
  }
}

/** The parts of Go's `strconv` package that the accessors rely on, for a 64-bit `int`. */
module Strconv {
  import opened Wrappers

  const MinInt: int := -0x8000_0000_0000_0000
  const MaxInt: int := 0x7FFF_FFFF_FFFF_FFFF

  predicate IsDigit(c: char) { '0' <= c <= '9' }

  predicate AllDigits(s: string) {
    forall i :: 0 <= i < |s| ==> IsDigit(s[i])
  }

  /** The value of a decimal numeral, read from the left. */
  function DigitsValue(s: string): nat
    requires AllDigits(s)
  {
    if s == [] then 0 else DigitsValue(s[..|s| - 1]) * 10 + (s[|s| - 1] as int - '0' as int)
  }

  /** `strconv.Atoi`: an optional sign followed by at least one decimal digit, in range. */
  function Atoi(s: string): (r: Option<int>)
    ensures r.Some? ==> MinInt <= r.value <= MaxInt
    ensures s == [] || (s[0] != '-' && s[0] != '+' && !IsDigit(s[0])) ==> r.None?
    ensures s != [] && AllDigits(s) && DigitsValue(s) <= MaxInt ==> r == Some(DigitsValue(s))
    ensures s != [] && AllDigits(s) && DigitsValue(s) > MaxInt ==> r.None?
    ensures |s| >= 2 && s[0] == '+' && AllDigits(s[1..]) ==>
              r == if DigitsValue(s[1..]) <= MaxInt then Some(DigitsValue(s[1..])) else None
    ensures |s| >= 2 && s[0] == '-' && AllDigits(s[1..]) ==>
              r == if DigitsValue(s[1..]) <= -MinInt then Some(-(DigitsValue(s[1..]) as int)) else None
    ensures r.Some? ==> (s != [] && AllDigits(s)) ||
                        (|s| >= 2 && (s[0] == '-' || s[0] == '+') && AllDigits(s[1..]))
  {
    var signed := |s| > 0 && (s[0] == '-' || s[0] == '+');
    var digits := if signed then s[1..] else s;
    if digits == [] || !AllDigits(digits) then None
    else
      var v: int := if signed && s[0] == '-' then -(DigitsValue(digits) as int) else DigitsValue(digits);
      if MinInt <= v <= MaxInt then Some(v) else None
  }

  /** `strconv.Itoa` on a natural number: its shortest decimal numeral. */
  function NatToDigits(n: nat): (r: string)
    ensures |r| >= 1 && AllDigits(r)
  {
    if n < 10 then [(n + '0' as int) as char]
    else NatToDigits(n / 10) + [(n % 10 + '0' as int) as char]
  }

  /** `strconv.Itoa`. */
  function Itoa(n: int): (r: string)
    ensures n >= 0 ==> |r| >= 1 && AllDigits(r) && DigitsValue(r) == n
    ensures n < 0 ==> |r| >= 2 && r[0] == '-' && AllDigits(r[1..]) && DigitsValue(r[1..]) == -n
  {
    if n < 0 then
      DigitsValueOfNatToDigits(-n);
      assert ("-" + NatToDigits(-n))[1..] == NatToDigits(-n);
      "-" + NatToDigits(-n)
    else
      DigitsValueOfNatToDigits(n);
      NatToDigits(n)
  }

  lemma {:induction false} DigitsValueOfNatToDigits(n: nat)
    ensures DigitsValue(NatToDigits(n)) == n
  {
    if n >= 10 {
      var d := NatToDigits(n);
      assert d[..|d| - 1] == NatToDigits(n / 10);
      DigitsValueOfNatToDigits(n / 10);
    }
  }

  lemma AtoiItoa(n: int)
    requires MinInt <= n <= MaxInt
    ensures Atoi(Itoa(n)) == Some(n)
  {
    var s := Itoa(n);
    if n < 0 {
      var digits := NatToDigits(-n);
      assert s == "-" + digits;
      assert s[0] == '-' && s[1..] == digits;
      DigitsValueOfNatToDigits(-n);
      assert DigitsValue(digits) == -n;
    } else {
      assert s == NatToDigits(n);
      DigitsValueOfNatToDigits(n);
    }
  }
}
