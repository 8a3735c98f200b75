/** Cell values and cast_value (core.py:25-44 and core.py:201-212). */
module Values {

  import opened Errors
  import opened Text

  /** A cell of a row: what the JSON row files and cast_value produce,
      with NoneV for Python's None (a missing field read by row.get). */
  datatype Value = IntV(i: int) | StrV(s: string) | BoolV(b: bool) | NoneV

  /** str(v) in Python. */
  function Render(v: Value): string {
    match v
    case IntV(n) => IntToDecimal(n)
    case StrV(s) => s
    case BoolV(b) => if b then "True" else "False"
    case NoneV => "None"
  }

  /** The column type a cast value belongs to. */
  function KindOf(v: Value): string {
    match v
    case IntV(_) => "int"
    case BoolV(_) => "bool"
    case StrV(_) => "str"
    case NoneV => "none"
  }

  const TrueTokens: set<string> := {"true", "1", "yes"}
  const FalseTokens: set<string> := {"false", "0", "no"}

  /** The effective cast_value (core.py:201-212): int() for "int", a truthy
      test that never fails for "bool", quote stripping for any other type. */
  function CastValue(value: string, kind: string): (r: Result<Value>)
    ensures r.Err? <==> kind == "int" && ParseInt(value).None?
    ensures r.Err? ==> r.error == BadValue(value, kind)
    ensures r.Ok? ==> KindOf(r.value) == (if kind in {"int", "bool"} then kind else "str")
    ensures r.Ok? && kind == "int" ==> r.value == IntV(ParseInt(value).value)
    ensures r.Ok? && kind == "bool" ==> (r.value.b <==> Lower(value) in TrueTokens)
    ensures r.Ok? && kind !in {"int", "bool"} ==> r.value == StrV(StripQuotes(value))
  {
    if kind == "int" then
      match ParseInt(value)
      case None => Err(BadValue(value, kind))
      case Some(n) => Ok(IntV(n))
    else if kind == "bool" then
      Ok(BoolV(Lower(value) in TrueTokens))
    else
      Ok(StrV(StripQuotes(value)))
  }

  /** The earlier cast_value (core.py:25-44), shadowed at import: it also
      rejects a bool outside the six accepted tokens. */
  function CastValueStrict(value: string, kind: string): (r: Result<Value>)
    ensures r.Err? <==>
      || (kind == "int" && ParseInt(value).None?)
      || (kind == "bool" && Lower(value) !in TrueTokens + FalseTokens)
    ensures r.Err? ==> r.error == BadValue(value, kind)
    ensures r.Ok? ==> r == CastValue(value, kind)
  {
    if kind == "int" then
      match ParseInt(value)
      case None => Err(BadValue(value, kind))
      case Some(n) => Ok(IntV(n))
    else if kind == "bool" then
      var lowered := Lower(value);
      if lowered in TrueTokens then Ok(BoolV(true))
      else if lowered in FalseTokens then Ok(BoolV(false))
      else Err(BadValue(value, kind))
    else
      Ok(StrV(StripQuotes(value)))
  }

  /** A string cell survives the rendering/cast round trip when its ends are
      not quote characters. */
  predicate Castable(v: Value) {
    match v
    case IntV(_) => true
    case BoolV(_) => true
    case StrV(s) => s == [] || (s[0] !in {'"', '\''} && s[|s| - 1] !in {'"', '\''})
    case NoneV => false
  }

  lemma LowerBoolNames()
    ensures Lower("True") == "true" && Lower("False") == "false"
  {
  }

  lemma CastBoolRoundTrip(b: bool)
    ensures CastValue(Render(BoolV(b)), "bool") == Ok(BoolV(b))
    ensures CastValueStrict(Render(BoolV(b)), "bool") == Ok(BoolV(b))
  {
    LowerBoolNames();
    if b {
      assert Render(BoolV(b)) == "True";
    } else {
      assert Render(BoolV(b)) == "False";
    }
  }

  lemma CastIntRoundTrip(n: int)
    ensures CastValue(Render(IntV(n)), "int") == Ok(IntV(n))
    ensures CastValueStrict(Render(IntV(n)), "int") == Ok(IntV(n))
  {
    ParseIntOfDecimal(n);
  }

  lemma CastStrRoundTrip(s: string)
    requires Castable(StrV(s))
    ensures CastValue(Render(StrV(s)), "str") == Ok(StrV(s))
    ensures CastValueStrict(Render(StrV(s)), "str") == Ok(StrV(s))
  {
    StripQuotesKeeps(s);
  }

  /** Casting the rendering of a value to its own type gives the value back,
      for both revisions of cast_value. */
  lemma CastRoundTrip(v: Value)
    requires Castable(v)
    ensures CastValue(Render(v), KindOf(v)) == Ok(v)
    ensures CastValueStrict(Render(v), KindOf(v)) == Ok(v)
  {
    match v
    case IntV(n) => CastIntRoundTrip(n);
    case BoolV(b) => CastBoolRoundTrip(b);
    case StrV(s) => CastStrRoundTrip(s);
  }
}
