/** The text handling of the `mtg` command (src/commands/mtg.rs): which
    sub-command a message selects, and the card names pulled out of it with
    the regular expression `\[(.*?)\]`. */
module MtgCommand {

  /** Where a lazy `.*?` started at `i` has to stop: the first `]` (the
      closing bracket it waits for) or `\n` (which `.` does not match) at or
      after `i`, or the end of the text. */
  function NextStop(s: string, i: nat): (r: nat)
    requires i <= |s|
    ensures i <= r <= |s|
    ensures r < |s| ==> s[r] == ']' || s[r] == '\n'
    decreases |s| - i
  {
    if i == |s| || s[i] == ']' || s[i] == '\n' then i else NextStop(s, i + 1)
  }

  /** Nothing before the stop is a `]` or a newline: the stop is the first. */
  lemma {:induction false} NextStopIsFirst(s: string, i: nat)
    requires i <= |s|
    ensures forall j :: i <= j < NextStop(s, i) ==> s[j] != ']' && s[j] != '\n'
    decreases |s| - i
  {
    if i < |s| && s[i] != ']' && s[i] != '\n' {
      NextStopIsFirst(s, i + 1);
    }
  }

  /** The expression matches at `i`: a `[` there, and a `]` reached from it
      before any newline. */
  predicate IsMatchAt(s: string, i: int) {
    && 0 <= i < |s|
    && s[i] == '['
    && NextStop(s, i + 1) < |s|
    && s[NextStop(s, i + 1)] == ']'
  }

  /** The index of the `]` that closes the match at `i`. */
  function MatchEnd(s: string, i: int): (r: nat)
    requires IsMatchAt(s, i)
    ensures i < r < |s| && s[r] == ']'
  {
    NextStop(s, i + 1)
  }

  /** Capture group 1 of the match at `i`: the text between the brackets. */
  function Content(s: string, i: int): (t: string)
    requires IsMatchAt(s, i)
    ensures forall k :: 0 <= k < |t| ==> t[k] != ']' && t[k] != '\n'
    ensures i + 1 + |t| < |s| && s[i] == '[' && s[i + 1 + |t|] == ']' && s[i + 1..i + 1 + |t|] == t
  {
    NextStopIsFirst(s, i + 1);
    s[i + 1..MatchEnd(s, i)]
  }

  /** No match starts in `[lo, hi)`. */
  predicate NoMatchIn(s: string, lo: int, hi: int) {
    forall i :: lo <= i < hi ==> !IsMatchAt(s, i)
  }

  /** The starts of the matches `captures_iter` finds from `p` on: the
      leftmost match, then the search again from just after its `]`. */
  function Starts(s: string, p: nat): (r: seq<nat>)
    requires p <= |s|
    ensures forall k :: 0 <= k < |r| ==> p <= r[k] && IsMatchAt(s, r[k])
    decreases |s| - p
  {
    if p == |s| then []
    else if IsMatchAt(s, p) then [p] + Starts(s, MatchEnd(s, p) + 1)
    else Starts(s, p + 1)
  }

  /** The search finds nothing exactly when no match starts from `p` on. */
  lemma {:induction false} StartsEmpty(s: string, p: nat)
    requires p <= |s|
    ensures |Starts(s, p)| == 0 <==> NoMatchIn(s, p, |s|)
    decreases |s| - p
  {
    if p < |s| && !IsMatchAt(s, p) {
      StartsEmpty(s, p + 1);
    }
  }

  /** One step of the search: a match at `p` is taken and the search goes
      on after its `]`; otherwise it goes on at `p + 1`. */
  lemma StartsStep(s: string, p: nat)
    requires p < |s|
    ensures IsMatchAt(s, p) ==> Starts(s, p) == [p] + Starts(s, MatchEnd(s, p) + 1)
    ensures !IsMatchAt(s, p) ==> Starts(s, p) == Starts(s, p + 1)
  {
  }

  /** The matches found do not overlap: each starts after the `]` of the
      one before. */
  lemma {:induction false} StartsDoNotOverlap(s: string, p: nat, k: nat)
    requires p <= |s|
    requires k + 1 < |Starts(s, p)|
    ensures MatchEnd(s, Starts(s, p)[k]) < Starts(s, p)[k + 1]
    decreases |s| - p
  {
    StartsStep(s, p);
    if IsMatchAt(s, p) {
      var q := MatchEnd(s, p) + 1;
      var rest := Starts(s, q);
      assert Starts(s, p)[k] == if k == 0 then p else rest[k - 1];
      assert Starts(s, p)[k + 1] == rest[k];
      if k > 0 {
        StartsDoNotOverlap(s, q, k - 1);
      }
    } else {
      StartsDoNotOverlap(s, p + 1, k);
    }
  }

  /** No match is skipped between two consecutive ones found. */
  lemma {:induction false} StartsAreConsecutive(s: string, p: nat, k: nat)
    requires p <= |s|
    requires k + 1 < |Starts(s, p)|
    ensures NoMatchIn(s, MatchEnd(s, Starts(s, p)[k]) + 1, Starts(s, p)[k + 1])
    decreases |s| - p, 1
  {
    StartsStep(s, p);
    if IsMatchAt(s, p) {
      ConsecutiveAfterMatch(s, p, k);
    } else {
      StartsAreConsecutive(s, p + 1, k);
    }
  }

  /** `StartsAreConsecutive` when the search takes a match at `p`. */
  lemma {:induction false} ConsecutiveAfterMatch(s: string, p: nat, k: nat)
    requires p < |s| && IsMatchAt(s, p)
    requires k + 1 < |Starts(s, p)|
    ensures NoMatchIn(s, MatchEnd(s, Starts(s, p)[k]) + 1, Starts(s, p)[k + 1])
    decreases |s| - p, 0
  {
    StartsStep(s, p);
    var q := MatchEnd(s, p) + 1;
    var rest := Starts(s, q);
    assert Starts(s, p)[k + 1] == rest[k];
    if k == 0 {
      StartsSkipNothingBefore(s, q);
    } else {
      assert Starts(s, p)[k] == rest[k - 1];
      StartsAreConsecutive(s, q, k - 1);
    }
  }

  /** No match starts before the first one found. */
  lemma {:induction false} StartsSkipNothingBefore(s: string, p: nat)
    requires p <= |s|
    requires |Starts(s, p)| > 0
    ensures NoMatchIn(s, p, Starts(s, p)[0])
    decreases |s| - p
  {
    StartsStep(s, p);
    if !IsMatchAt(s, p) {
      StartsSkipNothingBefore(s, p + 1);
    }
  }

  /** No match starts after the last one found. */
  lemma {:induction false} StartsSkipNothingAfter(s: string, p: nat)
    requires p <= |s|
    requires |Starts(s, p)| > 0
    ensures NoMatchIn(s, MatchEnd(s, Starts(s, p)[|Starts(s, p)| - 1]) + 1, |s|)
    decreases |s| - p
  {
    StartsStep(s, p);
    if IsMatchAt(s, p) {
      var q := MatchEnd(s, p) + 1;
      if |Starts(s, q)| > 0 {
        StartsSkipNothingAfter(s, q);
      } else {
        StartsEmpty(s, q);
      }
    } else {
      StartsSkipNothingAfter(s, p + 1);
    }
  }

  /** Every capture of `\[(.*?)\]` in `s`, left to right. */
  function Captures(s: string): (r: seq<string>)
    ensures |r| == 0 <==> NoMatchIn(s, 0, |s|)
    ensures forall k :: 0 <= k < |r| ==> forall j :: 0 <= j < |r[k]| ==> r[k][j] != ']' && r[k][j] != '\n'
  {
    StartsEmpty(s, 0);
    var starts := Starts(s, 0);
    seq(|starts|, k requires 0 <= k < |starts| => Content(s, starts[k]))
  }

  /** The names `mtg_card` searches for: the captures when the expression
      matches somewhere, otherwise the whole text as one name. */
  function Terms(s: string): (r: seq<string>)
    ensures |r| >= 1
    ensures NoMatchIn(s, 0, |s|) <==> r == [s]
  {
    var cs := Captures(s);
    if |cs| == 0 then [s]
    else
      assert cs[0] != s by {
        var i0 := Starts(s, 0)[0];
        assert |cs[0]| < |s| by {
          assert cs[0] == Content(s, i0);
        }
      }
      cs
  }

  /** When the expression matches, there is one name per match the search
      finds, and the `k`-th name is the text between the brackets of the
      `k`-th match, so it sits between a `[` and the first `]` after it,
      with no newline in between. */
  lemma TermsComeFromBrackets(s: string, k: nat)
    requires !NoMatchIn(s, 0, |s|)
    requires k < |Terms(s)|
    ensures |Terms(s)| == |Starts(s, 0)|
    ensures Terms(s)[k] == Content(s, Starts(s, 0)[k])
    ensures exists i :: IsMatchAt(s, i) && Terms(s)[k] == Content(s, i)
    ensures forall j :: 0 <= j < |Terms(s)[k]| ==> Terms(s)[k][j] != ']' && Terms(s)[k][j] != '\n'
  {
    var starts := Starts(s, 0);
    StartsEmpty(s, 0);
    assert Terms(s) == Captures(s);
    assert Terms(s)[k] == Content(s, starts[k]);
  }

  /** Two bracketed names come back in order, and text outside the brackets
      is dropped. */
  lemma TwoNames()
    ensures Terms("[a] [b]") == ["a", "b"]
  {
    var s := "[a] [b]";
    TwoNamesStarts();
    assert MatchEnd(s, 0) == 2 && MatchEnd(s, 4) == 6;
    assert Content(s, 0) == "a" && Content(s, 4) == "b";
    StartsEmpty(s, 0);
  }

  /** The search over the example finds the brackets at 0 and 4. */
  lemma TwoNamesStarts()
    ensures Starts("[a] [b]", 0) == [0, 4]
  {
    var s := "[a] [b]";
    assert NextStop(s, 1) == 2 && NextStop(s, 5) == 6;
    StartsStep(s, 4);
    StartsStep(s, 3);
    StartsStep(s, 0);
  }

  /** A bracket closed only on the next line does not match, so the whole
      text is the one name. */
  lemma NewlineBreaksBracket()
    ensures Terms("[Opt\n]") == ["[Opt\n]"]
  {
    var s := "[Opt\n]";
    assert NextStop(s, 1) == 4;
    forall i | 0 < i < |s| ensures !IsMatchAt(s, i) {
      assert s[i] != '[';
    }
    assert NoMatchIn(s, 0, |s|);
  }

  /** What `mtg` does with a message. */
  datatype Command = Help | CardSearch(terms: seq<string>) | SetInfo

  /** The total length of the words. */
  function WordsLength(words: seq<string>): nat {
    if |words| == 0 then 0 else |words[0]| + WordsLength(words[1..])
  }

  /** The message words joined back into the text `args.rest()` returns: the
      first word, then each following word after one space. */
  function Rest(words: seq<string>): (r: string)
    ensures |words| == 0 ==> r == ""
    ensures |words| > 0 ==> words[0] <= r && |r| == WordsLength(words) + |words| - 1
    ensures |words| > 1 ==> r[|words[0]|] == ' ' && r[|words[0]| + 1..] == Rest(words[1..])
  {
    if |words| == 0 then ""
    else if |words| == 1 then words[0]
    else words[0] + " " + Rest(words[1..])
  }

  /** `mtg`: no words is help; `card` and `set` consume their keyword;
      anything else searches for cards in the whole message. */
  function Dispatch(words: seq<string>): (c: Command)
    ensures c.Help? <==> |words| == 0
    ensures c.SetInfo? <==> |words| > 0 && words[0] == "set"
    ensures c.CardSearch? ==> |c.terms| >= 1
    ensures c.CardSearch? && words[0] == "card" ==> c.terms == Terms(Rest(words[1..]))
    ensures c.CardSearch? && words[0] != "card" ==> c.terms == Terms(Rest(words))
  {
    if |words| == 0 then Help
    else if words[0] == "card" then CardSearch(Terms(Rest(words[1..])))
    else if words[0] == "set" then SetInfo
    else CardSearch(Terms(Rest(words)))
  }

  /** `card` alone searches for the empty name. */
  lemma BareCardSearchesEmptyName()
    ensures Dispatch(["card"]) == CardSearch([""])
  {
    assert Terms("") == [""] by {
      assert NoMatchIn("", 0, 0);
    }
  }
}
