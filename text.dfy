/** String and sequence helpers with Python's semantics: first-occurrence
    search, ASCII lower-casing, strip of a character set, and int() parsing
    and str() rendering of integers. */
module Text {

  import opened Errors

  /** Position of the first occurrence of x in s, or |s| when x does not occur
      (list.index and str.split look for the first occurrence). */
  function IndexOf<T(==)>(s: seq<T>, x: T): (i: nat)
    ensures i <= |s|
    decreases |s|
  {
    if s == [] then 0
    else if s[0] == x then 0
    else 1 + IndexOf(s[1..], x)
  }

  /** IndexOf stops inside s exactly when x occurs in s. */
  lemma {:induction false} IndexOfFound<T>(s: seq<T>, x: T)
    ensures IndexOf(s, x) < |s| <==> x in s
    decreases |s|
  {
    if s != [] && s[0] != x {
      IndexOfFound(s[1..], x);
      assert x in s[1..] <==> x in s;
    }
  }

  /** IndexOf finds the first occurrence: x is at the position returned and
      nowhere before it. */
  lemma {:induction false} IndexOfFirst<T>(s: seq<T>, x: T)
    ensures IndexOf(s, x) < |s| ==> s[IndexOf(s, x)] == x
    ensures forall j :: 0 <= j < IndexOf(s, x) ==> s[j] != x
    decreases |s|
  {
    if s != [] && s[0] != x {
      IndexOfFirst(s[1..], x);
    }
  }

  /** The converse: a position holding x with no x before it is what IndexOf
      returns. */
  lemma {:induction false} IndexOfAt<T>(s: seq<T>, x: T, k: nat)
    requires k < |s| && s[k] == x && forall j :: 0 <= j < k ==> s[j] != x
    ensures IndexOf(s, x) == k
    decreases k
  {
    if k > 0 {
      IndexOfAt(s[1..], x, k - 1);
    }
  }

  function LowerChar(c: char): char {
    if 'A' <= c <= 'Z' then (c as int + 32) as char else c
  }

  /** str.lower restricted to ASCII letters. */
  function Lower(s: string): string {
    if s == [] then [] else [LowerChar(s[0])] + Lower(s[1..])
  }

  lemma {:induction false} LowerLength(s: string)
    ensures |Lower(s)| == |s|
  {
    if s != [] {
      LowerLength(s[1..]);
    }
  }

  /** Removes every leading character that belongs to cs. */
  function StripLeft(s: string, cs: set<char>): (r: string)
    ensures |r| <= |s| && r == s[|s| - |r|..]
    ensures forall k :: 0 <= k < |s| - |r| ==> s[k] in cs
    ensures r == [] || r[0] !in cs
    decreases |s|
  {
    if s != [] && s[0] in cs then StripLeft(s[1..], cs) else s
  }

  /** Removes every trailing character that belongs to cs. */
  function StripRight(s: string, cs: set<char>): (r: string)
    ensures |r| <= |s| && r == s[..|r|]
    ensures forall k :: |r| <= k < |s| ==> s[k] in cs
    ensures r == [] || r[|r| - 1] !in cs
    decreases |s|
  {
    if s != [] && s[|s| - 1] in cs then StripRight(s[..|s| - 1], cs) else s
  }

  /** str.strip(chars): s without its leading and trailing characters of cs. */
  function Strip(s: string, cs: set<char>): (r: string)
    ensures |r| <= |s|
    ensures r == [] || (r[0] !in cs && r[|r| - 1] !in cs)
  {
    StripRight(StripLeft(s, cs), cs)
  }

  /** How many leading characters of s belong to cs. */
  ghost function LeadingIn(s: string, cs: set<char>): nat {
    |s| - |StripLeft(s, cs)|
  }

  /** Strip keeps the slice of s that starts after its leading characters of
      cs, and drops only characters of cs. */
  lemma StripSlice(s: string, cs: set<char>, a: nat, r: string)
    requires a == LeadingIn(s, cs) && r == Strip(s, cs)
    ensures a + |r| <= |s| && r == s[a..a + |r|]
    ensures forall k :: 0 <= k < |s| && !(a <= k < a + |r|) ==> s[k] in cs
  {
    var left := StripLeft(s, cs);
    assert left == s[a..a + |left|];
    assert r == left[0..|r|];
    SliceWithin(s, a, left, cs, 0, r, cs, a);
  }

  lemma StripKeeps(s: string, cs: set<char>)
    requires s == [] || (s[0] !in cs && s[|s| - 1] !in cs)
    ensures Strip(s, cs) == s
  {
  }

  /** A slice of a slice, each dropping only characters of its own set, is
      a slice of the whole dropping only characters of either set. */
  lemma SliceWithin(s: string, a1: nat, inner: string, cs1: set<char>, a2: nat, r: string, cs2: set<char>, a: nat)
    requires a1 + |inner| <= |s| && inner == s[a1..a1 + |inner|]
    requires forall k :: 0 <= k < |s| && !(a1 <= k < a1 + |inner|) ==> s[k] in cs1
    requires a2 + |r| <= |inner| && r == inner[a2..a2 + |r|]
    requires forall k :: 0 <= k < |inner| && !(a2 <= k < a2 + |r|) ==> inner[k] in cs2
    requires a == a1 + a2
    ensures a + |r| <= |s| && r == s[a..a + |r|]
    ensures forall k :: 0 <= k < |s| && !(a <= k < a + |r|) ==> s[k] in cs1 || s[k] in cs2
  {
    assert forall i :: 0 <= i < |r| ==> r[i] == inner[a2 + i] == s[a + i];
    forall k | 0 <= k < |s| && !(a <= k < a + |r|)
      ensures s[k] in cs1 || s[k] in cs2
    {
      if a1 <= k < a1 + |inner| {
        assert s[k] == inner[k - a1];
      }
    }
  }

  /** Neither end of s is a single quote. */
  predicate NoQuoteEnds(s: string) {
    s == [] || (s[0] != '\'' && s[|s| - 1] != '\'')
  }

  /** value.strip('"').strip("'"), used by cast_value and parse_where. */
  function StripQuotes(s: string): (r: string)
    ensures |r| <= |s|
    ensures NoQuoteEnds(r)
  {
    Strip(Strip(s, {'"'}), {'\''})
  }

  /** How many leading characters StripQuotes drops from s. */
  ghost function LeadingQuotes(s: string): nat {
    LeadingIn(s, {'"'}) + LeadingIn(Strip(s, {'"'}), {'\''})
  }

  /** StripQuotes keeps the slice of s after its leading quotes and drops
      only quote characters, of either kind. */
  lemma StripQuotesSlice(s: string, a: nat, r: string)
    requires a == LeadingQuotes(s) && r == StripQuotes(s)
    ensures a + |r| <= |s| && r == s[a..a + |r|]
    ensures forall k :: 0 <= k < |s| && !(a <= k < a + |r|) ==> s[k] in {'"', '\''}
  {
    var inner := Strip(s, {'"'});
    var a1, a2 := LeadingIn(s, {'"'}), LeadingIn(inner, {'\''});
    assert LeadingQuotes(s) == a1 + a2;
    StripSlice(s, {'"'}, a1, inner);
    StripSlice(inner, {'\''}, a2, r);
    SliceWithin(s, a1, inner, {'"'}, a2, r, {'\''}, a);
  }

  /** A string whose ends are not quote characters comes back unchanged. */
  lemma StripQuotesKeeps(s: string)
    requires s == [] || (s[0] !in {'"', '\''} && s[|s| - 1] !in {'"', '\''})
    ensures StripQuotes(s) == s
  {
    StripKeeps(s, {'"'});
    StripKeeps(s, {'\''});
  }

  /** The ASCII characters that Python's int() skips around a number: space,
      tab, line feed, vertical tab, form feed and carriage return. */
  const Whitespace: set<char> :=
    {' ', '\t', '\n', 11 as char, 12 as char, '\r'}

  predicate IsDigit(c: char) {
    '0' <= c <= '9'
  }

  /** Digits with single underscores between them, as int() accepts. */
  predicate IsDigitRun(s: string) {
    && |s| > 0
    && IsDigit(s[0])
    && IsDigit(s[|s| - 1])
    && (forall k :: 0 <= k < |s| ==> IsDigit(s[k]) || s[k] == '_')
    && (forall k :: 0 <= k < |s| - 1 ==> s[k] != '_' || s[k + 1] != '_')
  }

  /** The number written by the digits of s, underscores skipped. */
  function DigitsValue(s: string): nat
    requires forall k :: 0 <= k < |s| ==> IsDigit(s[k]) || s[k] == '_'
  {
    if s == [] then 0
    else if s[|s| - 1] == '_' then DigitsValue(s[..|s| - 1])
    else
      assert IsDigit(s[|s| - 1]);
      DigitsValue(s[..|s| - 1]) * 10 + (s[|s| - 1] as int - '0' as int)
  }

  /** int(s): surrounding whitespace, an optional sign, then a digit run. */
  function ParseInt(s: string): (r: Option<int>)
    ensures r.Some? ==> exists k :: 0 <= k < |s| && IsDigit(s[k])
  {
    ParseSigned(Strip(s, Whitespace))
  }

  /** int() of an already stripped string: an optional sign, then a digit run. */
  function ParseSigned(t: string): (r: Option<int>)
    ensures r.Some? ==> exists k :: 0 <= k < |t| && IsDigit(t[k])
  {
    if t != [] && (t[0] == '-' || t[0] == '+') then
      var body := t[1..];
      if IsDigitRun(body) then
        assert IsDigit(t[1]);
        var magnitude: int := DigitsValue(body);
        Some(if t[0] == '-' then -magnitude else magnitude)
      else None
    else if IsDigitRun(t) then
      assert IsDigit(t[0]);
      Some(DigitsValue(t))
    else None
  }

  function DigitChar(d: nat): (c: char)
    requires d < 10
    ensures IsDigit(c) && c as int - '0' as int == d
  {
    ('0' as int + d) as char
  }

  /** str(n) for a natural number: its decimal digits, no leading zeros. */
  function NatToDecimal(n: nat): (r: string)
    ensures |r| > 0 && (forall k :: 0 <= k < |r| ==> IsDigit(r[k]))
    decreases n
  {
    if n < 10 then [DigitChar(n)] else NatToDecimal(n / 10) + [DigitChar(n % 10)]
  }

  /** str(n) for an integer. */
  function IntToDecimal(n: int): string {
    if n < 0 then "-" + NatToDecimal(-n) else NatToDecimal(n)
  }

  lemma {:induction false} DigitsValueOfDecimal(n: nat)
    ensures DigitsValue(NatToDecimal(n)) == n
    decreases n
  {
    var r := NatToDecimal(n);
    if n >= 10 {
      DigitsValueOfDecimal(n / 10);
      assert r[..|r| - 1] == NatToDecimal(n / 10);
    }
  }

  lemma DecimalIsDigitRun(n: nat)
    ensures IsDigitRun(NatToDecimal(n))
  {
    var d := NatToDecimal(n);
    assert forall k :: 0 <= k < |d| ==> d[k] != '_';
  }

  lemma DigitNotSpace(c: char)
    requires IsDigit(c) || c == '-'
    ensures c !in Whitespace && c != '+'
  {
  }

  lemma ParseSignedOfNatDecimal(m: nat)
    ensures ParseSigned(NatToDecimal(m)) == Some(m as int)
  {
    var d := NatToDecimal(m);
    DigitsValueOfDecimal(m);
    DecimalIsDigitRun(m);
    DigitNotSpace(d[0]);
  }

  /** A minus sign followed by a digit run parses to the negated run. */
  lemma ParseSignedMinus(d: string)
    requires IsDigitRun(d)
    ensures ParseSigned("-" + d) == Some(-(DigitsValue(d) as int))
  {
    assert ("-" + d)[1..] == d;
  }

  lemma ParseSignedOfNegDecimal(n: int)
    requires n < 0
    ensures ParseSigned(IntToDecimal(n)) == Some(n)
  {
    var d := NatToDecimal(-n);
    assert IntToDecimal(n) == "-" + d;
    DigitsValueOfDecimal(-n);
    DecimalIsDigitRun(-n);
    ParseSignedMinus(d);
  }

  /** A rendered integer has no surrounding whitespace to strip. */
  lemma DecimalUnstripped(n: int)
    ensures Strip(IntToDecimal(n), Whitespace) == IntToDecimal(n)
  {
    var s := IntToDecimal(n);
    var d := NatToDecimal(if n < 0 then -n else n);
    if n < 0 {
      assert s == "-" + d;
      assert s[|s| - 1] == d[|d| - 1];
    }
    DigitNotSpace(s[0]);
    DigitNotSpace(s[|s| - 1]);
    StripKeeps(s, Whitespace);
  }

  /** int(str(n)) == n: parsing the rendering of an integer gives it back. */
  lemma ParseIntOfDecimal(n: int)
    ensures ParseInt(IntToDecimal(n)) == Some(n)
  {
    DecimalUnstripped(n);
    if n < 0 {
      ParseSignedOfNegDecimal(n);
    } else {
      ParseSignedOfNatDecimal(n);
    }
  }
}
