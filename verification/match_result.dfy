/**
 * The score annotation of `parse_match_result` (app.py): a score `"x:y"`,
 * read from FURIA's side, gets a victory, defeat or draw marker; anything
 * else is returned as it is.
 */
module MatchResult {
  import opened Wrappers
  import opened Text

  const Victory: string := " | ✅ Vitória"
  const Defeat: string := " | ❌ Derrota"
  const Draw: string := " | ⚡ Empate"

  /** The marker for a score of `x` to `y`, FURIA being the first number. */
  function Verdict(x: int, y: int): (r: string)
    ensures r == Victory <==> x > y
    ensures r == Defeat <==> y > x
    ensures r == Draw <==> x == y
  {
    if x > y then Victory else if y > x then Defeat else Draw
  }

  /** `parse_match_result(result_str)`. An empty string, a string without
      exactly one `:` and a side `int()` rejects all come back unchanged. */
  function ParseMatchResult(s: string): (r: string)
    ensures r == s || r == s + Victory || r == s + Defeat || r == s + Draw
    ensures multiset(s)[':'] != 1 ==> r == s
  {
    match ReadScore(s)
    case Some((x, y)) => s + Verdict(x, y)
    case None => s
  }

  /** The two numbers of a score `x:y`: `None` for an empty string, one
      without exactly one `:`, or a side `int()` rejects. */
  function ReadScore(s: string): (r: Option<(int, int)>)
    ensures r.Some? ==> multiset(s)[':'] == 1
  {
    SplitCount(s, ':');
    if s == [] || ':' !in s then None
    else
      var parts := Split(s, ':');
      if |parts| != 2 then None
      else
        match (ParseInt(parts[0]), ParseInt(parts[1]))
        case (Some(x), Some(y)) => Some((x, y))
        case _ => None
  }

  /** The rule on a score made of two sides without `:`: both sides integers
      gives the marker of their comparison, otherwise nothing changes. */
  lemma {:induction false} ScoreRule(a: string, b: string)
    requires ':' !in a && ':' !in b
    ensures var s := a + ":" + b;
            ParseMatchResult(s)
            == match (ParseInt(a), ParseInt(b))
               case (Some(x), Some(y)) => s + Verdict(x, y)
               case _ => s
  {
    var s := a + ":" + b;
    assert Join([a, b], [':']) == s;
    SplitJoin([a, b], ':');
    assert ':' in s by { assert s[|a|] == ':'; }
  }

  /** A score written the way Python prints integers is annotated by comparing
      the two numbers. */
  lemma ScoreOfIntegers(x: int, y: int)
    requires Printable(x) && Printable(y)
    ensures var s := IntToString(x) + ":" + IntToString(y);
            ParseMatchResult(s) == s + Verdict(x, y)
  {
    ParseIntShow(x);
    ParseIntShow(y);
    NoColonInNumber(x);
    NoColonInNumber(y);
    ScoreRule(IntToString(x), IntToString(y));
  }

  lemma NoColonInNumber(n: int)
    ensures ':' !in IntToString(n)
  {
    if n < 0 {
      assert IntToString(n) == "-" + NatToString(-n);
    }
  }

  lemma TwoDigits()
    ensures IntToString(16) == "16" && IntToString(10) == "10"
    ensures Printable(16) && Printable(10)
  {
    assert NatToString(16) == NatToString(1) + [DigitChar(6)];
    assert NatToString(10) == NatToString(1) + [DigitChar(0)];
  }

  /** 16:10 is a victory. */
  lemma VictoryExample()
    ensures ParseMatchResult("16:10") == "16:10" + Victory
  {
    TwoDigits();
    assert "16:10" == IntToString(16) + ":" + IntToString(10);
    Example(16, 10, "16:10");
  }

  /** 10:16 is a defeat. */
  lemma DefeatExample()
    ensures ParseMatchResult("10:16") == "10:16" + Defeat
  {
    TwoDigits();
    assert "10:16" == IntToString(10) + ":" + IntToString(16);
    Example(10, 16, "10:16");
  }

  /** 10:10 is a draw. */
  lemma DrawExample()
    ensures ParseMatchResult("10:10") == "10:10" + Draw
  {
    TwoDigits();
    assert "10:10" == IntToString(10) + ":" + IntToString(10);
    Example(10, 10, "10:10");
  }

  /** A score still to be played is left alone. */
  lemma TbdExample()
    ensures ParseMatchResult("TBD") == "TBD"
  {
    assert ':' !in "TBD";
  }

  lemma Example(x: int, y: int, s: string)
    requires s == IntToString(x) + ":" + IntToString(y) && Printable(x) && Printable(y)
    ensures ParseMatchResult(s) == s + Verdict(x, y)
  {
    ScoreOfIntegers(x, y);
  }
}
