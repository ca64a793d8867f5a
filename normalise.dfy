/** The deterministic text steps of the betting pipeline: the TeamRankings
    URL built from a team name, the clean-up of the team names the language
    model returns, and the splitting of its "comma separated values" answer
    into the points of the last games. */
module Normalise {
  import opened Wrappers
  import opened PyStr

  const TeamRankingsPrefix: string := "https://www.teamrankings.com/nba/team/"

  /** `team.lower()` followed by `.replace(" ", "-")`: the path segment for
      a team. Same length as the name, no spaces, letters in lower case,
      everything else kept in place. */
  function TeamSlug(team: string): (r: string)
    ensures |r| == |team|
    ensures ' ' !in r
    ensures forall i :: 0 <= i < |team| ==> !IsAsciiUpper(r[i])
    ensures forall i :: 0 <= i < |team| && IsAsciiUpper(team[i]) ==> r[i] as int == team[i] as int + 32
    ensures forall i :: 0 <= i < |team| && !IsAsciiUpper(team[i]) && team[i] != ' ' ==> r[i] == team[i]
    ensures forall i :: 0 <= i < |team| && team[i] == ' ' ==> r[i] == '-'
  {
    var low := Lower(team);
    var r := ReplaceChar(low, ' ', '-');
    assert forall i :: 0 <= i < |team| ==> r[i] == (if team[i] == ' ' then '-' else LowerChar(team[i])) by {
      forall i | 0 <= i < |team| ensures r[i] == (if team[i] == ' ' then '-' else LowerChar(team[i])) {
        LowerCharSpec(team[i]);
      }
    }
    assert forall i :: 0 <= i < |team| ==> !IsAsciiUpper(r[i]) by {
      forall i | 0 <= i < |team| ensures !IsAsciiUpper(r[i]) {
        LowerCharSpec(team[i]);
      }
    }
    r
  }

  /** A slug is its own slug: building the URL from an already normalised
      name changes nothing. */
  lemma TeamSlugIdempotent(team: string)
    ensures TeamSlug(TeamSlug(team)) == TeamSlug(team)
  {
    var s := TeamSlug(team);
    var t := TeamSlug(s);
    forall i | 0 <= i < |s| ensures t[i] == s[i] {
      LowerCharSpec(s[i]);
    }
  }

  /** Names that differ only in letter case lead to the same page. */
  lemma TeamSlugIgnoresCase(team: string)
    ensures TeamSlug(Lower(team)) == TeamSlug(team)
  {
    var a, b := TeamSlug(Lower(team)), TeamSlug(team);
    forall i | 0 <= i < |team| ensures a[i] == b[i] {
      LowerCharSpec(team[i]);
      LowerCharSpec(LowerChar(team[i]));
    }
  }

  /** Names that differ only in spaces against dashes lead to the same page. */
  lemma TeamSlugIgnoresSpaceDash(team: string)
    ensures TeamSlug(ReplaceChar(team, ' ', '-')) == TeamSlug(team)
  {
    var c, b := TeamSlug(ReplaceChar(team, ' ', '-')), TeamSlug(team);
    forall i | 0 <= i < |team| ensures c[i] == b[i] {
      LowerCharSpec(team[i]);
    }
  }

  /** The query sent to TeamRankings: the fixed prefix, then the slug. */
  function TeamRankingsUrl(team: string): (r: string)
    ensures |r| == |TeamRankingsPrefix| + |team|
    ensures r[..|TeamRankingsPrefix|] == TeamRankingsPrefix
    ensures r[|TeamRankingsPrefix|..] == TeamSlug(team)
  {
    TeamRankingsPrefix + TeamSlug(team)
  }

  /** Two team names give the same URL exactly when they give the same slug. */
  lemma TeamRankingsUrlInjective(a: string, b: string)
    ensures TeamRankingsUrl(a) == TeamRankingsUrl(b) <==> TeamSlug(a) == TeamSlug(b)
  {
    if TeamRankingsUrl(a) == TeamRankingsUrl(b) {
      assert TeamRankingsUrl(a)[|TeamRankingsPrefix|..] == TeamRankingsUrl(b)[|TeamRankingsPrefix|..];
    }
  }

  /** `team_name.replace("\n", "")`, applied to the language model's answer
      naming a team. */
  function TeamNameFromAnswer(answer: string): (r: string)
    ensures '\n' !in r
    ensures |r| == |answer| - Count(answer, '\n')
    ensures multiset(r) == multiset(answer)[('\n') := 0]
  {
    DeleteMultiset(answer, '\n');
    Delete(answer, '\n')
  }

  /** Three facts about the clean-up, each the matching `Delete` lemma at
      `'\n'`: the answer is cleaned piece by piece, so the other characters
      keep their order; an answer without a newline is returned as it is;
      cleaning twice is the same as cleaning once. */
  lemma TeamNameFromAnswerProperties(a: string, b: string)
    ensures TeamNameFromAnswer(a + b) == TeamNameFromAnswer(a) + TeamNameFromAnswer(b)
    ensures '\n' !in a ==> TeamNameFromAnswer(a) == a
    ensures TeamNameFromAnswer(TeamNameFromAnswer(a)) == TeamNameFromAnswer(a)
  {
    DeleteAppend(a, b, '\n');
    if '\n' !in a {
      DeleteAbsent(a, '\n');
    }
    DeleteIdempotent(a, '\n');
  }

  const PointsSeparator: char := ','

  /** `[x.strip() for x in answer.strip().split(",")]`, before every token is
      handed to `float()`. */
  function PointTokens(answer: string): (r: seq<string>)
    ensures |r| == Count(Strip(answer), PointsSeparator) + 1
    ensures forall k :: 0 <= k < |r| ==> IsTrimmed(r[k]) && PointsSeparator !in r[k]
  {
    var pieces := Split(Strip(answer), PointsSeparator);
    assert forall k :: 0 <= k < |pieces| ==> PointsSeparator !in Strip(pieces[k]) by {
      forall k | 0 <= k < |pieces| ensures PointsSeparator !in Strip(pieces[k]) {
        StripKeepsOut(pieces[k], PointsSeparator);
      }
    }
    seq(|pieces|, k requires 0 <= k < |pieces| => Strip(pieces[k]))
  }

  /** Each token is the trimmed text of a piece between two commas of the
      stripped answer, the pieces rejoined with commas give the stripped
      answer back, and trimming a token again changes nothing. */
  lemma PointTokensPieces(answer: string)
    ensures |Split(Strip(answer), PointsSeparator)| == |PointTokens(answer)|
    ensures Join(Split(Strip(answer), PointsSeparator), PointsSeparator) == Strip(answer)
    ensures forall k :: 0 <= k < |PointTokens(answer)| ==>
      PointTokens(answer)[k] == Strip(Split(Strip(answer), PointsSeparator)[k])
    ensures forall k :: 0 <= k < |PointTokens(answer)| ==>
      Strip(PointTokens(answer)[k]) == PointTokens(answer)[k]
  {
    JoinSplit(Strip(answer), PointsSeparator);
    var r := PointTokens(answer);
    forall k | 0 <= k < |r| ensures Strip(r[k]) == r[k] {
      StripTrimmed(r[k]);
    }
  }

  /** The list comprehension calls `float()` on every token and raises on
      the first one it cannot parse; `parse` stands for `float()`, `None`
      for the exception. */
  function ParseAll<R>(tokens: seq<string>, parse: string -> Option<R>): (r: Option<seq<R>>)
    ensures r.Some? <==> forall k :: 0 <= k < |tokens| ==> parse(tokens[k]).Some?
    ensures r.Some? ==> |r.value| == |tokens|
    ensures r.Some? ==> forall k :: 0 <= k < |tokens| ==> r.value[k] == parse(tokens[k]).value
  {
    if tokens == [] then Some([])
    else
      match parse(tokens[0])
      case None => None
      case Some(x) =>
        match ParseAll(tokens[1..], parse)
        case None => None
        case Some(xs) => Some([x] + xs)
  }

  /** The points of the last games as the source reads them from the
      model's answer. Their number, the divisor `len(...)` of the average
      taken next, is never zero, so only number parsing can fail here. */
  function ParsePoints<R>(answer: string, parse: string -> Option<R>): (r: Option<seq<R>>)
    ensures r.Some? <==> forall k :: 0 <= k < |PointTokens(answer)| ==> parse(PointTokens(answer)[k]).Some?
    ensures r.Some? ==> |r.value| == Count(Strip(answer), PointsSeparator) + 1
    ensures r.Some? ==> |r.value| >= 1
  {
    ParseAll(PointTokens(answer), parse)
  }

  lemma StripTypicalAnswer()
    ensures Strip(" 10, 20 ,5\n") == "10, 20 ,5"
  {
    assert " " + "10, 20 ,5" + "\n" == " 10, 20 ,5\n";
    StripFramed(" ", "10, 20 ,5", "\n");
  }

  lemma SplitTypicalAnswer()
    ensures Split("10, 20 ,5", ',') == ["10", " 20 ", "5"]
  {
    assert Join(["10", " 20 ", "5"], ',') == "10, 20 ,5";
    SplitJoin(["10", " 20 ", "5"], ',');
  }

  lemma StripTypicalToken()
    ensures Strip(" 20 ") == "20"
  {
    assert " " + "20" + " " == " 20 ";
    StripFramed(" ", "20", " ");
  }

  /** An answer in the form the language model is asked for, with stray
      spaces and a trailing newline, gives the bare numbers. */
  lemma PointTokensTypical()
    ensures |PointTokens(" 10, 20 ,5\n")| == 3
    ensures PointTokens(" 10, 20 ,5\n")[0] == "10"
    ensures PointTokens(" 10, 20 ,5\n")[1] == "20"
    ensures PointTokens(" 10, 20 ,5\n")[2] == "5"
  {
    StripTypicalAnswer();
    SplitTypicalAnswer();
    StripTypicalToken();
    StripTrimmed("10");
    StripTrimmed("5");
  }

  /** An empty answer still gives one, empty, token. */
  lemma PointTokensEmpty()
    ensures PointTokens("") == [""]
  {
    StripTrimmed("");
  }

  /** An empty field between two commas stays in its place. */
  lemma SplitEmptyField()
    ensures Split("7,,9", ',') == ["7", "", "9"]
  {
    assert Join(["7", "", "9"], ',') == "7,,9";
    SplitJoin(["7", "", "9"], ',');
  }

  lemma PointTokensEmptyField()
    ensures |PointTokens("7,,9")| == 3
    ensures PointTokens("7,,9")[0] == "7"
    ensures PointTokens("7,,9")[1] == ""
    ensures PointTokens("7,,9")[2] == "9"
  {
    StripTrimmed("7,,9");
    SplitEmptyField();
    StripTrimmed("7");
    StripTrimmed("");
    StripTrimmed("9");
  }
}
