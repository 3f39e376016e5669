/**
  Rendering a quiz pattern as answer text: the cells of a row joined by
  spaces, the rows joined by newlines. Which text a cell gets (its bit code
  or its color name) is a parameter.
 */
module Answers {
  import opened Codes

  /** A quiz pattern: rows of codes. */
  type Pattern = seq<seq<Code>>

  predicate IsSquare(p: Pattern, n: nat)
  {
    |p| == n && forall i :: 0 <= i < n ==> |p[i]| == n
  }

  /** Text usable as one cell of an answer: non-empty and free of both separators. */
  predicate IsCellText(s: string)
  {
    |s| > 0 && ' ' !in s && '\n' !in s
  }

  /** A cell renderer whose texts tell the codes apart and can be split back out. */
  predicate IsFaithfulRenderer(cell: Code -> string)
  {
    (forall c :: IsCellText(cell(c))) && (forall c, d :: cell(c) == cell(d) ==> c == d)
  }

  /** Array join: the parts with one separator between neighbours; no parts give "". */
  function Join(parts: seq<string>, sep: char): string
  {
    if |parts| == 0 then ""
    else if |parts| == 1 then parts[0]
    else parts[0] + [sep] + Join(parts[1..], sep)
  }

  /** String split on every occurrence of `sep`; always at least one part. */
  function Split(s: string, sep: char): (parts: seq<string>)
    ensures |parts| >= 1
  {
    if |s| == 0 then [""]
    else
      var rest := Split(s[1..], sep);
      if s[0] == sep then [""] + rest else [[s[0]] + rest[0]] + rest[1..]
  }

  function RenderRow(cell: Code -> string, row: seq<Code>): string
  {
    Join(seq(|row|, j requires 0 <= j < |row| => cell(row[j])), ' ')
  }

  /** The answer text of a pattern. */
  function Render(cell: Code -> string, p: Pattern): string
  {
    Join(seq(|p|, i requires 0 <= i < |p| => RenderRow(cell, p[i])), '\n')
  }

  /** A character that is neither in any part nor the separator is not in the joined text. */
  lemma {:induction false} JoinAvoids(parts: seq<string>, sep: char, ch: char)
    requires ch != sep
    requires forall i :: 0 <= i < |parts| ==> ch !in parts[i]
    ensures ch !in Join(parts, sep)
  {
    if |parts| > 1 {
      JoinAvoids(parts[1..], sep, ch);
    }
  }

  /** Text without the separator splits into itself. */
  lemma {:induction false} SplitWithoutSeparator(a: string, sep: char)
    requires sep !in a
    ensures Split(a, sep) == [a]
  {
    if |a| > 0 {
      SplitWithoutSeparator(a[1..], sep);
      assert [a[0]] + a[1..] == a;
    }
  }

  /** Splitting stops at the first separator. */
  lemma {:induction false} SplitAtFirstSeparator(a: string, b: string, sep: char)
    requires sep !in a
    ensures Split(a + [sep] + b, sep) == [a] + Split(b, sep)
  {
    if |a| == 0 {
      assert a + [sep] + b == [sep] + b;
      assert ([sep] + b)[1..] == b;
    } else {
      SplitAtFirstSeparator(a[1..], b, sep);
      assert (a + [sep] + b)[1..] == a[1..] + [sep] + b;
      assert [a[0]] + a[1..] == a;
    }
  }

  /** Splitting undoes joining, as long as no part contains the separator. */
  lemma {:induction false} SplitJoin(parts: seq<string>, sep: char)
    requires |parts| >= 1
    requires forall i :: 0 <= i < |parts| ==> sep !in parts[i]
    ensures Split(Join(parts, sep), sep) == parts
  {
    if |parts| == 1 {
      SplitWithoutSeparator(parts[0], sep);
    } else {
      SplitJoin(parts[1..], sep);
      SplitAtFirstSeparator(parts[0], Join(parts[1..], sep), sep);
      assert [parts[0]] + parts[1..] == parts;
    }
  }

  /** A rendered row contains no newline, and it gives back its cells when split on spaces. */
  lemma RowRoundTrip(cell: Code -> string, row: seq<Code>)
    requires IsFaithfulRenderer(cell)
    requires |row| >= 1
    ensures '\n' !in RenderRow(cell, row)
    ensures Split(RenderRow(cell, row), ' ') == seq(|row|, j requires 0 <= j < |row| => cell(row[j]))
  {
    var texts := seq(|row|, j requires 0 <= j < |row| => cell(row[j]));
    assert forall j :: 0 <= j < |texts| ==> IsCellText(texts[j]);
    JoinAvoids(texts, ' ', '\n');
    SplitJoin(texts, ' ');
  }

  /** Two non-empty rows render alike exactly when they are equal. */
  lemma RowRenderInjective(cell: Code -> string, r: seq<Code>, s: seq<Code>)
    requires IsFaithfulRenderer(cell)
    requires |r| >= 1 && |s| >= 1
    ensures RenderRow(cell, r) == RenderRow(cell, s) <==> r == s
  {
    if RenderRow(cell, r) == RenderRow(cell, s) {
      RowRoundTrip(cell, r);
      RowRoundTrip(cell, s);
      var tr := seq(|r|, j requires 0 <= j < |r| => cell(r[j]));
      var ts := seq(|s|, j requires 0 <= j < |s| => cell(s[j]));
      assert tr == ts;
      forall j | 0 <= j < |r| ensures r[j] == s[j] {
        assert tr[j] == ts[j];
      }
    }
  }

  /**
    Two patterns with non-empty rows render to the same answer text exactly
    when they are the same pattern: comparing answer texts compares patterns.
   */
  lemma RenderInjective(cell: Code -> string, p: Pattern, q: Pattern)
    requires IsFaithfulRenderer(cell)
    requires |p| >= 1 && forall i :: 0 <= i < |p| ==> |p[i]| >= 1
    requires |q| >= 1 && forall i :: 0 <= i < |q| ==> |q[i]| >= 1
    ensures Render(cell, p) == Render(cell, q) <==> p == q
  {
    if Render(cell, p) == Render(cell, q) {
      var rp := seq(|p|, i requires 0 <= i < |p| => RenderRow(cell, p[i]));
      var rq := seq(|q|, i requires 0 <= i < |q| => RenderRow(cell, q[i]));
      forall i | 0 <= i < |p| ensures '\n' !in rp[i] {
        RowRoundTrip(cell, p[i]);
      }
      forall i | 0 <= i < |q| ensures '\n' !in rq[i] {
        RowRoundTrip(cell, q[i]);
      }
      SplitJoin(rp, '\n');
      SplitJoin(rq, '\n');
      assert rp == rq;
      forall i | 0 <= i < |p| ensures p[i] == q[i] {
        assert rp[i] == rq[i];
        RowRenderInjective(cell, p[i], q[i]);
      }
    }
  }

  /** The bit-code renderer is faithful. */
  lemma BitsRendererIsFaithful()
    ensures IsFaithfulRenderer(Bits)
  {
    forall c ensures IsCellText(Bits(c)) {
      CodeCases(c);
    }
  }
}
