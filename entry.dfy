/** Letter entry for the current clue: one square per letter of the
    normalised answer, an active square, typing, deleting, revealing a letter
    and submitting a guess. */
module Entry {
  import opened Text
  import opened Clues
  import opened PartMapper

  datatype Verdict = Correct | Wrong

  /** What a key press did: nothing to judge, or a submitted guess. */
  datatype KeyOutcome = NoVerdict | Submitted(verdict: Verdict)

  /** `letters.join("")`: empty exactly when every square is empty, which is
      when a submission is rejected outright. */
  function Join(letters: seq<string>): (r: string)
    ensures r == [] <==> forall i :: 0 <= i < |letters| ==> letters[i] == []
  {
    if letters == [] then [] else Join(letters[..|letters| - 1]) + letters[|letters| - 1]
  }

  /** `/^[a-z]$/i`: exactly one ASCII letter, so the upper-cased key written
      into a square is one capital letter. */
  predicate IsLetterKey(key: string)
    ensures IsLetterKey(key) ==> |UpperCase(key)| == 1 && IsUpperLetter(UpperCase(key)[0])
  {
    |key| == 1 && IsLetter(key[0])
  }

  /** The squares left empty, in ascending order. */
  function EmptySquares(letters: seq<string>): (r: seq<int>)
    ensures forall i :: i in r <==> 0 <= i < |letters| && letters[i] == []
    ensures forall a, b :: 0 <= a < b < |r| ==> r[a] < r[b]
  {
    if letters == [] then []
    else
      var init := letters[..|letters| - 1];
      assert forall i :: 0 <= i < |init| ==> init[i] == letters[i];
      var e := EmptySquares(init);
      forall a | 0 <= a < |e| ensures e[a] < |init| {
        assert e[a] in e;
      }
      e + (if letters[|letters| - 1] == [] then [|letters| - 1] else [])
  }

  class Game {
    /** The normalised answer the guess is compared with. */
    var answer: string
    /** The content of each square: empty or one upper-case letter. */
    var letters: seq<string>
    var activeIdx: int
    /** The answer squares each wordplay part maps to. */
    var partMappings: seq<seq<int>>

    /** One square per answer letter, each holding at most one letter, and
        the active square on a square (or 0 when there are none). */
    predicate Valid()
      reads this
    {
      |letters| == |answer| &&
      (forall i :: 0 <= i < |letters| ==> |letters[i]| <= 1) &&
      0 <= activeIdx && (activeIdx < |letters| || activeIdx == 0)
    }

    /** `loadClue` for a present clue: the answer without whitespace in upper
        case, every square empty, the first square active and the part
        mappings computed. */
    constructor (c: Clue)
      ensures answer == NormalizeAnswer(c.answer)
      ensures letters == seq(|answer|, _ => "") && activeIdx == 0
      ensures partMappings == Mappings(c.parts, answer)
      ensures Valid()
    {
      var stripped := NormalizeAnswer(c.answer);
      var mappings := ComputePartMappings(c, stripped);
      answer := stripped;
      letters := seq(|stripped|, _ => "");
      activeIdx := 0;
      partMappings := mappings;
    }

    /** `updateActiveSquare`: moves the active square to `next`, clamped to
        the squares; with no squares nothing changes. */
    method UpdateActiveSquare(next: int)
      requires Valid()
      modifies this
      ensures Valid()
      ensures answer == old(answer) && letters == old(letters) && partMappings == old(partMappings)
      ensures activeIdx == if |letters| == 0 then old(activeIdx) else Max(0, Min(next, |letters| - 1))
    {
      if |letters| == 0 {
        return;
      }
      activeIdx := Max(0, Min(next, |letters| - 1));
    }

    /** A click on square `idx`, as the handler is written: every square's
        handler reads the one counter of the loop that built the squares, and
        that counter ends equal to the number of squares, so whichever square
        is clicked, the last one becomes active. */
    method ClickSquareAsWritten(idx: int)
      requires Valid()
      modifies this
      ensures Valid()
      ensures answer == old(answer) && letters == old(letters) && partMappings == old(partMappings)
      ensures |letters| > 0 ==> activeIdx == |letters| - 1
      ensures |letters| > 1 && idx == 0 ==> activeIdx != idx
    {
      var globalIndex := |letters|;
      UpdateActiveSquare(globalIndex);
    }

    /** A click on square `idx`, as evidently intended: that square becomes
        active. */
    method ClickSquare(idx: int)
      requires Valid() && 0 <= idx < |letters|
      modifies this
      ensures Valid()
      ensures answer == old(answer) && letters == old(letters) && partMappings == old(partMappings)
      ensures activeIdx == idx
    {
      UpdateActiveSquare(idx);
    }

    /** `fillSquare`: puts `ch` into square `idx` if there is such a square. */
    method FillSquare(idx: int, ch: string)
      requires Valid() && |ch| <= 1
      modifies this
      ensures Valid()
      ensures answer == old(answer) && activeIdx == old(activeIdx) && partMappings == old(partMappings)
      ensures letters == if 0 <= idx < |letters| then old(letters)[idx := ch] else old(letters)
    {
      if !(0 <= idx < |letters|) {
        return;
      }
      letters := letters[idx := ch];
    }

    /** `onSubmit`: an empty guess is wrong; otherwise the joined letters are
        compared with the answer. */
    method OnSubmit() returns (v: Verdict)
      ensures v == if Join(letters) != [] && Join(letters) == answer then Correct else Wrong
    {
      var guess := Join(letters);
      if guess == [] {
        return Wrong;
      }
      v := if guess == answer then Correct else Wrong;
    }

    /** `handleKey`: Enter submits; Backspace empties the active square and
        steps back one square; a letter fills the active square in upper case
        and steps forward unless on the last square; any other key, or a key
        with no squares, does nothing. */
    method HandleKey(key: string) returns (outcome: KeyOutcome)
      requires Valid()
      modifies this
      ensures Valid()
      ensures answer == old(answer) && partMappings == old(partMappings)
      ensures |letters| == 0 || (key != "Enter" && key != "Backspace" && !IsLetterKey(key)) ==>
        outcome == NoVerdict && letters == old(letters) && activeIdx == old(activeIdx)
      ensures |letters| > 0 && key == "Enter" ==>
        letters == old(letters) && activeIdx == old(activeIdx) &&
        outcome == Submitted(if Join(letters) != [] && Join(letters) == answer then Correct else Wrong)
      ensures |letters| > 0 && key == "Backspace" ==>
        outcome == NoVerdict && letters == old(letters)[old(activeIdx) := ""] &&
        activeIdx == Max(0, old(activeIdx) - 1)
      ensures |letters| > 0 && IsLetterKey(key) ==>
        outcome == NoVerdict && letters == old(letters)[old(activeIdx) := UpperCase(key)] &&
        activeIdx == if old(activeIdx) < |letters| - 1 then old(activeIdx) + 1 else old(activeIdx)
    {
      outcome := NoVerdict;
      if |letters| == 0 {
        return;
      }
      var idx := activeIdx;
      if key == "Enter" {
        var v := OnSubmit();
        return Submitted(v);
      }
      if key == "Backspace" {
        FillSquare(idx, "");
        UpdateActiveSquare(Max(0, idx - 1));
        return;
      }
      if IsLetterKey(key) {
        FillSquare(idx, UpperCase(key));
        if idx < |letters| - 1 {
          UpdateActiveSquare(idx + 1);
        }
      }
    }

    /** `onRevealLetter`: collects the empty squares; if there are any, fills
        the chosen one with its answer letter and activates the square after
        it (or the last square). The random choice is the parameter `pick`,
        reduced to an index into the empty squares. */
    method RevealLetter(pick: nat) returns (filled: int)
      requires Valid()
      modifies this
      ensures Valid()
      ensures answer == old(answer) && partMappings == old(partMappings)
      ensures filled == -1 <==> EmptySquares(old(letters)) == []
      ensures filled == -1 ==> letters == old(letters) && activeIdx == old(activeIdx)
      ensures filled != -1 ==>
        0 <= filled < |letters| &&
        filled == EmptySquares(old(letters))[pick % |EmptySquares(old(letters))|] &&
        old(letters)[filled] == "" &&
        letters == old(letters)[filled := [answer[filled]]] &&
        activeIdx == Min(filled + 1, |letters| - 1)
    {
      var empties: seq<int> := [];
      for i := 0 to |letters|
        invariant empties == EmptySquares(letters[..i])
      {
        assert letters[..i + 1][..i] == letters[..i];
        if letters[i] == [] {
          empties := empties + [i];
        }
      }
      assert letters[..|letters|] == letters;
      if |empties| == 0 {
        return -1;
      }
      filled := empties[pick % |empties|];
      assert filled in empties;
      var correctChar := [answer[filled]];
      FillSquare(filled, correctChar);
      UpdateActiveSquare(Min(filled + 1, |letters| - 1));
    }
  }

  /** Each square holds at most one letter, so the joined guess is at most
      as long as the answer. */
  lemma {:induction false} JoinLength(letters: seq<string>)
    requires forall i :: 0 <= i < |letters| ==> |letters[i]| <= 1
    ensures |Join(letters)| <= |letters|
    ensures |Join(letters)| == |letters| <==> forall i :: 0 <= i < |letters| ==> |letters[i]| == 1
    decreases |letters|
  {
    if letters != [] {
      var init := letters[..|letters| - 1];
      JoinLength(init);
      assert forall i :: 0 <= i < |init| ==> init[i] == letters[i];
    }
  }

  lemma {:induction false} JoinFilled(letters: seq<string>)
    requires forall i :: 0 <= i < |letters| ==> |letters[i]| == 1
    ensures |Join(letters)| == |letters|
    ensures forall i :: 0 <= i < |letters| ==> Join(letters)[i] == letters[i][0]
    decreases |letters|
  {
    if letters != [] {
      var init := letters[..|letters| - 1];
      assert forall i :: 0 <= i < |init| ==> init[i] == letters[i];
      JoinFilled(init);
    }
  }

  /** A guess is accepted exactly when the answer is not empty and every
      square holds the answer's letter at that position. */
  lemma SubmitIsCorrectIff(letters: seq<string>, answer: string)
    requires |letters| == |answer| && forall i :: 0 <= i < |letters| ==> |letters[i]| <= 1
    ensures (Join(letters) != [] && Join(letters) == answer) <==>
      answer != [] && forall i :: 0 <= i < |answer| ==> letters[i] == [answer[i]]
  {
    JoinLength(letters);
    if Join(letters) == answer {
      JoinFilled(letters);
      forall i | 0 <= i < |answer| ensures letters[i] == [answer[i]] {
        assert |letters[i]| == 1 && letters[i][0] == Join(letters)[i];
      }
    }
    if forall i :: 0 <= i < |answer| ==> letters[i] == [answer[i]] {
      JoinFilled(letters);
      assert Join(letters) == answer;
    }
  }
}
