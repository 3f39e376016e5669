/**
  The quiz: a random square pattern of codes, its answer text, three
  distinct wrong answers drawn until found, a shuffle, a one-shot answer
  check and the running score.
 */
module Quiz {
  import opened Wrappers
  import opened Codes
  import opened Answers
  import opened Shuffling

  /** One random draw in 0..3 per cell of a `size` x `size` pattern. */
  predicate ValidCellDraws(draws: seq<seq<nat>>, size: nat)
  {
    |draws| == size && forall i :: 0 <= i < size ==> |draws[i]| == size && forall j :: 0 <= j < size ==> draws[i][j] < 4
  }

  /** The pattern picked by cell draws: each draw indexes the list of keys. */
  function PatternOf(draws: seq<seq<nat>>, size: nat): Pattern
    requires ValidCellDraws(draws, size)
  {
    seq(size, i requires 0 <= i < size => seq(size, j requires 0 <= j < size => CodeOf(draws[i][j])))
  }

  /** The answer texts of a list of patterns, in order. */
  function RenderAll(cell: Code -> string, ps: seq<Pattern>): seq<string>
  {
    seq(|ps|, k requires 0 <= k < |ps| => Render(cell, ps[k]))
  }

  /** The wrong patterns picked by successive candidate draws. */
  function Candidates(candidateDraws: seq<seq<seq<nat>>>, size: nat): seq<Pattern>
    requires forall k :: 0 <= k < |candidateDraws| ==> ValidCellDraws(candidateDraws[k], size)
  {
    seq(|candidateDraws|, k requires 0 <= k < |candidateDraws| => PatternOf(candidateDraws[k], size))
  }

  /**
    The answer and every text in `texts` lie among fewer than four strings,
    so at most three distinct options can be made from them.
   */
  ghost predicate FewerThanFourDistinct(answer: string, texts: seq<string>)
  {
    exists few: seq<string> :: |few| < 4 && answer in few && forall k :: 0 <= k < |texts| ==> texts[k] in few
  }

  /**
    The pattern of one question, built row by row. The size is `sizeDraw + 3`
    for a draw in 0..2, so 3x3 to 5x5.
   */
  method GeneratePattern(sizeDraw: nat, draws: seq<seq<nat>>) returns (p: Pattern)
    requires sizeDraw < 3
    requires ValidCellDraws(draws, sizeDraw + 3)
    ensures IsSquare(p, sizeDraw + 3) && 3 <= |p| <= 5
    ensures forall i, j :: 0 <= i < |p| && 0 <= j < |p| ==> p[i][j] == CodeOf(draws[i][j])
    ensures p == PatternOf(draws, sizeDraw + 3)
  {
    var size := sizeDraw + 3;
    p := [];
    var i := 0;
    while i < size
      invariant 0 <= i <= size && |p| == i
      invariant forall r :: 0 <= r < i ==> |p[r]| == size
      invariant forall r, j :: 0 <= r < i && 0 <= j < size ==> p[r][j] == CodeOf(draws[r][j])
    {
      var row: seq<Code> := [];
      var j := 0;
      while j < size
        invariant 0 <= j <= size && |row| == j
        invariant forall k :: 0 <= k < j ==> row[k] == CodeOf(draws[i][k])
      {
        row := row + [CodeOf(draws[i][j])];
        j := j + 1;
      }
      p := p + [row];
      i := i + 1;
    }
    forall r | 0 <= r < size ensures p[r] == PatternOf(draws, size)[r] {
    }
  }

  /**
    The options the program collects: going through `texts` in order, each
    text not yet among `opts` is appended, until there are four.
   */
  function Collect(opts: seq<string>, texts: seq<string>): seq<string>
    decreases |texts|
  {
    if |opts| >= 4 || texts == [] then opts
    else Collect(if texts[0] in opts then opts else opts + [texts[0]], texts[1..])
  }

  /**
    The option loop: starting from the answer, each candidate's answer text
    is added unless it is already an option, until there are four. The
    program keeps drawing candidates for as long as it takes; here the
    candidates are supplied, and `used` says how many were consumed.
   */
  method CollectOptions(cell: Code -> string, answer: string, candidates: seq<Pattern>)
    returns (options: seq<string>, used: nat)
    ensures 1 <= |options| <= 4 && options[0] == answer && Distinct(options)
    ensures used <= |candidates| && (|options| < 4 ==> used == |candidates|)
    ensures forall k :: 1 <= k < |options| ==> options[k] in RenderAll(cell, candidates[..used])
    ensures forall k :: 0 <= k < used ==> Render(cell, candidates[k]) in options
    ensures options == Collect([answer], RenderAll(cell, candidates))
  {
    ghost var texts := RenderAll(cell, candidates);
    options := [answer];
    used := 0;
    while |options| < 4 && used < |candidates|
      invariant 1 <= |options| <= 4 && options[0] == answer && Distinct(options)
      invariant used <= |candidates|
      invariant forall k :: 1 <= k < |options| ==> options[k] in texts[..used]
      invariant forall k :: 0 <= k < used ==> texts[k] in options
      invariant Collect(options, texts[used..]) == Collect([answer], texts)
    {
      var wrongAnswer := Render(cell, candidates[used]);
      assert texts[used..] == [wrongAnswer] + texts[used + 1..];
      assert texts[..used + 1] == texts[..used] + [wrongAnswer];
      if wrongAnswer !in options {
        options := options + [wrongAnswer];
      }
      used := used + 1;
    }
    assert RenderAll(cell, candidates[..used]) == texts[..used];
    assert forall k :: 0 <= k < used ==> texts[k] == Render(cell, candidates[k]);
  }

  /**
    The accuracy shown with the score, in exact arithmetic: the percentage of
    correct answers rounded half up, and 0 before any answer.
   */
  function Accuracy(correct: nat, wrong: nat): (pct: nat)
    ensures pct <= 100
    ensures correct == 0 ==> pct == 0
    ensures wrong == 0 && correct > 0 ==> pct == 100
  {
    var total := correct + wrong;
    RoundedRatioBounds(correct, wrong);
    if total > 0 then (200 * correct + total) / (2 * total) else 0
  }

  /** The bounds of the rounded ratio: at most 100, and exactly 100 with no wrong answer. */
  lemma RoundedRatioBounds(correct: nat, wrong: nat)
    ensures correct + wrong > 0 ==> (200 * correct + correct + wrong) / (2 * (correct + wrong)) <= 100
    ensures wrong == 0 && correct > 0 ==> (200 * correct + correct + wrong) / (2 * (correct + wrong)) == 100
  {
    var total := correct + wrong;
    if total > 0 {
      QuotientBelow(200 * correct + total, 2 * total, 100);
      if wrong == 0 {
        QuotientAtLeast(200 * correct + total, 2 * total, 100);
      }
    }
  }

  /** With a positive factor, a positive product has a positive other factor. */
  lemma FactorPositive(a: int, d: int)
    requires d > 0 && a * d > 0
    ensures a > 0
  {
  }

  lemma QuotientBelow(n: nat, d: nat, k: nat)
    requires d > 0 && n < (k + 1) * d
    ensures n / d <= k
  {
    var q := n / d;
    assert q * d <= n;
    assert (k + 1 - q) * d == (k + 1) * d - q * d;
    FactorPositive(k + 1 - q, d);
  }

  lemma QuotientAtLeast(n: nat, d: nat, k: nat)
    requires d > 0 && k * d <= n
    ensures k <= n / d
  {
    var q := n / d;
    assert n < (q + 1) * d;
    assert (q + 1 - k) * d == (q + 1) * d - k * d;
    FactorPositive(q + 1 - k, d);
  }

  /** Rounding to the nearest integer, halves upward. */
  function RoundHalfUp(x: real): int
  {
    (x + 0.5).Floor
  }

  /** Integer division is the floor of the exact quotient. */
  lemma FloorOfQuotient(n: nat, d: nat)
    requires d > 0
    ensures (n as real / d as real).Floor == n / d
  {
    var q, r := n / d, n % d;
    assert n == q * d + r;
    assert n as real == q as real * d as real + r as real;
    assert n as real / d as real == q as real + r as real / d as real;
    assert 0.0 <= r as real / d as real < 1.0;
  }

  /** Accuracy is the exact percentage, rounded half up. */
  lemma AccuracyIsRoundedPercentage(correct: nat, wrong: nat)
    requires correct + wrong > 0
    ensures Accuracy(correct, wrong) == RoundHalfUp(correct as real / (correct + wrong) as real * 100.0)
  {
    var total := correct + wrong;
    var n, d := 200 * correct + total, 2 * total;
    assert correct as real / total as real * 100.0 + 0.5 == n as real / d as real;
    FloorOfQuotient(n, d);
  }

  /** Three right answers and one wrong one show 75%. */
  lemma AccuracyExample()
    ensures Accuracy(3, 1) == 75 && Accuracy(0, 0) == 0
  {
  }

  /**
    The four collected options, once shuffled, still have no repeats, still
    hold the answer exactly once, and the rest still come from the candidates.
   */
  lemma ShuffledOptions(cell: Code -> string, candidates: seq<Pattern>, used: nat,
                        opts: seq<string>, shuffled: seq<string>)
    requires used <= |candidates|
    requires |opts| == 4 && Distinct(opts)
    requires forall k :: 1 <= k < 4 ==> opts[k] in RenderAll(cell, candidates[..used])
    requires multiset(shuffled) == multiset(opts)
    ensures |shuffled| == 4 && Distinct(shuffled) && multiset(shuffled)[opts[0]] == 1
    ensures forall k :: 0 <= k < 4 ==> shuffled[k] == opts[0] || shuffled[k] in RenderAll(cell, candidates)
  {
    assert |shuffled| == |multiset(shuffled)| == |multiset(opts)| == 4;
    PermutationKeepsDistinct(opts, shuffled);
    DistinctIffSingleOccurrences(shuffled);
    assert opts[0] in multiset(opts);
    forall k | 0 <= k < 4 && shuffled[k] != opts[0]
      ensures shuffled[k] in RenderAll(cell, candidates)
    {
      assert shuffled[k] in multiset(opts);
      var m :| 0 <= m < 4 && opts[m] == shuffled[k];
      var c :| 0 <= c < used && RenderAll(cell, candidates[..used])[c] == opts[m];
      assert RenderAll(cell, candidates)[c] == opts[m];
    }
  }

  /**
    The options of one question: the collected options, shuffled by the
    draws. `shown` is false when the supplied candidates run out before four
    distinct options exist, where the program would keep drawing.
   */
  method OfferOptions(cell: Code -> string, answer: string, candidates: seq<Pattern>, swapDraws: seq<nat>)
    returns (shown: bool, options: seq<string>)
    requires ValidDraws(swapDraws, 4)
    ensures shown ==>
              var opts := Collect([answer], RenderAll(cell, candidates));
              |opts| == 4 && options == FisherYates(opts, swapDraws, 3)
    ensures shown ==> |options| == 4 && Distinct(options) && multiset(options)[answer] == 1
    ensures shown ==> forall k :: 0 <= k < |options| ==>
              options[k] == answer || options[k] in RenderAll(cell, candidates)
    ensures !shown ==> FewerThanFourDistinct(answer, RenderAll(cell, candidates))
  {
    var opts, used := CollectOptions(cell, answer, candidates);
    if |opts| < 4 {
      assert FewerThanFourDistinct(answer, RenderAll(cell, candidates)) by {
        assert forall k :: 0 <= k < |candidates| ==> RenderAll(cell, candidates)[k] in opts;
      }
      return false, [];
    }

    var arr := new string[4](k => if 0 <= k < |opts| then opts[k] else "");
    assert arr[..] == opts;
    ShuffleArray(arr, swapDraws);
    options := arr[..];
    ShuffledOptions(cell, candidates, used, opts, options);
    shown := true;
  }

  /** The question, options and score of the quiz screen. */
  class QuizSession {
    var correct: nat
    var wrong: nat
    var answer: Option<string>
    var answered: bool
    var options: seq<string>

    /** Nothing answered, no question yet. */
    constructor ()
      ensures correct == 0 && wrong == 0 && answer == None && !answered && options == []
    {
      correct, wrong := 0, 0;
      answer := None;
      answered := false;
      options := [];
    }

    /**
      The next question. `colorToBit` is the question-type draw: the answer
      is written in bit codes when it holds and in color names (`names`)
      otherwise. `candidateDraws` are the draws for the successive wrong
      patterns and `swapDraws` the shuffle's draws. The options shown are the
      first three new candidate texts after the answer, shuffled by
      `swapDraws`. `shown` is false only
      when the supplied candidates run out before four distinct options
      exist, where the program would keep drawing; the options on screen are
      then left as they were.
     */
    method GenerateQuiz(sizeDraw: nat, cellDraws: seq<seq<nat>>, colorToBit: bool, names: Code -> string,
                        candidateDraws: seq<seq<seq<nat>>>, swapDraws: seq<nat>)
      returns (pattern: Pattern, shown: bool)
      requires sizeDraw < 3 && ValidCellDraws(cellDraws, sizeDraw + 3)
      requires forall k :: 0 <= k < |candidateDraws| ==> ValidCellDraws(candidateDraws[k], sizeDraw + 3)
      requires ValidDraws(swapDraws, 4)
      modifies this`answered, this`answer, this`options
      ensures !answered && correct == old(correct) && wrong == old(wrong)
      ensures IsSquare(pattern, sizeDraw + 3) && pattern == PatternOf(cellDraws, sizeDraw + 3)
      ensures answer == Some(Render(if colorToBit then Bits else names, pattern))
      ensures shown ==> |options| == 4 && Distinct(options) && multiset(options)[answer.value] == 1
      ensures shown ==> forall k :: 0 <= k < |options| ==>
                options[k] == answer.value ||
                options[k] in RenderAll(if colorToBit then Bits else names, Candidates(candidateDraws, sizeDraw + 3))
      ensures shown ==>
                var opts := Collect([answer.value], RenderAll(if colorToBit then Bits else names, Candidates(candidateDraws, sizeDraw + 3)));
                |opts| == 4 && options == FisherYates(opts, swapDraws, 3)
      ensures !shown ==> options == old(options)
      ensures !shown ==>
                FewerThanFourDistinct(answer.value, RenderAll(if colorToBit then Bits else names, Candidates(candidateDraws, sizeDraw + 3)))
    {
      answered := false;
      pattern := GeneratePattern(sizeDraw, cellDraws);
      var size := sizeDraw + 3;
      var cell := if colorToBit then Bits else names;
      var ans := Render(cell, pattern);
      answer := Some(ans);

      ghost var texts := RenderAll(if colorToBit then Bits else names, Candidates(candidateDraws, sizeDraw + 3));
      assert RenderAll(cell, Candidates(candidateDraws, size)) == texts;
      var shownOptions;
      shown, shownOptions := OfferOptions(cell, ans, Candidates(candidateDraws, size), swapDraws);
      if shown {
        options := shownOptions;
      }
    }

    /**
      An option button. Only the first answer after a question counts: it
      sets the answered flag and adds one to the right or the wrong counter,
      depending on whether `selected` is the answer text. Later presses
      change nothing.
     */
    method CheckAnswer(selected: string)
      modifies this`answered, this`correct, this`wrong
      ensures answered
      ensures old(answered) ==> correct == old(correct) && wrong == old(wrong)
      ensures !old(answered) && answer == Some(selected) ==> correct == old(correct) + 1 && wrong == old(wrong)
      ensures !old(answered) && answer != Some(selected) ==> correct == old(correct) && wrong == old(wrong) + 1
    {
      if answered {
        return;
      }
      answered := true;
      var isCorrect := answer == Some(selected);
      if isCorrect {
        correct := correct + 1;
      } else {
        wrong := wrong + 1;
      }
    }
  }
}
