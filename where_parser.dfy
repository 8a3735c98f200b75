/** parse_where (parser.py:4-21): the where clause of a command line, read
    from its tokens as `where <column> <operator> <value>`. */
module WhereParser {

  import opened Text

  const WhereWord: string := "where"

  /** idx is the position of the first occurrence of keyword in args. */
  predicate FirstAt(args: seq<string>, keyword: string, idx: int) {
    0 <= idx < |args| && args[idx] == keyword && forall j :: 0 <= j < idx ==> args[j] != keyword
  }

  /** The clause {column: value} taken from the tokens after the first
      occurrence of the keyword; empty when the keyword is absent or fewer
      than three tokens follow it (the IndexError branch). */
  function ClauseAfter(args: seq<string>, keyword: string): (r: map<string, string>)
    ensures |r| <= 1
    ensures forall col :: col in r ==> NoQuoteEnds(r[col])
  {
    var idx := IndexOf(args, keyword);
    if idx == |args| then map[]
    else if idx + 3 < |args| then
      map[args[idx + 1] := StripQuotes(args[idx + 3])]
    else map[]
  }

  /** parse_where: the clause after the first "where": empty without one,
      and {column: the quote-stripped value} when the first "where" has three
      tokens after it. */
  function ParseWhere(args: seq<string>): (r: map<string, string>)
    ensures |r| <= 1
    ensures WhereWord !in args ==> r == map[]
    ensures forall idx :: FirstAt(args, WhereWord, idx) && idx + 3 < |args| ==>
      r == map[args[idx + 1] := StripQuotes(args[idx + 3])]
  {
    if WhereWord !in args then
      NoKeyword(args, WhereWord);
      map[]
    else
      ClauseAtFirst(args, WhereWord);
      ClauseAfter(args, WhereWord)
  }

  /** Without the keyword the clause is empty: parse_where without a
      "where" token returns {}. */
  lemma NoKeyword(args: seq<string>, keyword: string)
    requires keyword !in args
    ensures ClauseAfter(args, keyword) == map[]
  {
    IndexOfFound(args, keyword);
  }

  /** With the first keyword at idx and three tokens after it, the clause is
      exactly {args[idx + 1]: the quote-stripped args[idx + 3]}. */
  lemma ClauseShape(args: seq<string>, keyword: string, idx: nat)
    requires idx + 3 < |args| && args[idx] == keyword
    requires forall j :: 0 <= j < idx ==> args[j] != keyword
    ensures ClauseAfter(args, keyword) == map[args[idx + 1] := StripQuotes(args[idx + 3])]
  {
    IndexOfAt(args, keyword, idx);
  }

  lemma ClauseAtFirst(args: seq<string>, keyword: string)
    ensures forall idx :: FirstAt(args, keyword, idx) && idx + 3 < |args| ==>
      ClauseAfter(args, keyword) == map[args[idx + 1] := StripQuotes(args[idx + 3])]
  {
    forall idx | FirstAt(args, keyword, idx) && idx + 3 < |args|
      ensures ClauseAfter(args, keyword) == map[args[idx + 1] := StripQuotes(args[idx + 3])]
    {
      ClauseShape(args, keyword, idx);
    }
  }

  /** A first keyword too close to the end gives the empty clause. */
  lemma ClauseTooShort(args: seq<string>, keyword: string, idx: nat)
    requires idx < |args| <= idx + 3 && args[idx] == keyword
    requires forall j :: 0 <= j < idx ==> args[j] != keyword
    ensures ClauseAfter(args, keyword) == map[]
  {
    IndexOfAt(args, keyword, idx);
  }

  /** The clause is non-empty exactly when the first keyword has three tokens
      after it. */
  lemma ClauseFound(args: seq<string>, keyword: string)
    ensures ClauseAfter(args, keyword) != map[] <==>
      exists idx :: 0 <= idx < |args| && args[idx] == keyword && idx + 3 < |args| &&
        forall j :: 0 <= j < idx ==> args[j] != keyword
  {
    IndexOfFirst(args, keyword);
    var i := IndexOf(args, keyword);
    if i < |args| && i + 3 < |args| {
      assert args[i + 1] in ClauseAfter(args, keyword);
    }
    if exists idx :: 0 <= idx < |args| && args[idx] == keyword && idx + 3 < |args| &&
        forall j :: 0 <= j < idx ==> args[j] != keyword
    {
      var idx :| 0 <= idx < |args| && args[idx] == keyword && idx + 3 < |args| &&
        forall j :: 0 <= j < idx ==> args[j] != keyword;
      IndexOfAt(args, keyword, idx);
      assert args[idx + 1] in ClauseAfter(args, keyword);
    }
  }

  /** The operator token is never looked at: any token in its place, "="
      or not, gives the same clause. */
  lemma OperatorIgnored(args: seq<string>, keyword: string, op: string)
    requires IndexOf(args, keyword) + 2 < |args|
    ensures ClauseAfter(args[IndexOf(args, keyword) + 2 := op], keyword) == ClauseAfter(args, keyword)
  {
    var idx := IndexOf(args, keyword);
    var changed := args[idx + 2 := op];
    IndexOfFirst(args, keyword);
    IndexOfAt(changed, keyword, idx);
  }

  /** parse_where on a command: `where age = 30` after other tokens gives
      {"age": "30"}, and the quotes of `'Bob'` are stripped. */
  lemma ParseWhereExample(pre: seq<string>, col: string, val: string)
    requires WhereWord !in pre
    ensures ParseWhere(pre + [WhereWord, col, "=", val]) == map[col := StripQuotes(val)]
  {
    var args := pre + [WhereWord, col, "=", val];
    IndexOfFound(pre, WhereWord);
    assert forall j :: 0 <= j < |pre| ==> args[j] == pre[j];
    ClauseShape(args, WhereWord, |pre|);
  }
}
