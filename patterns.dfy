/**
 Classic small configurations and what one generation does to them: a lone
 cell dies, the 2x2 block is a still life, and the blinker oscillates with
 period 2.  Each lemma is stated for any board whose rows are the given
 pattern; coordinates are (first index, second index) of the board, and the
 first index is the x axis of the screen.
 */
module Patterns {
  import opened Life

  /** A row of three cells is the display of its elements. */
  lemma Three(s: seq<int>)
    requires |s| == 3
    ensures s == [s[0], s[1], s[2]]
  {
  }

  /** A row of four cells is the display of its elements. */
  lemma Four(s: seq<int>)
    requires |s| == 4
    ensures s == [s[0], s[1], s[2], s[3]]
  {
  }

  /** The next generation of any 0/1 3x3 board, cell by cell. */
  lemma Step3x3(g: Grid)
    requires HasShape(g, 3, 3) && Binary(g)
    ensures Step(g) == [[Conway(g, 0, 0), Conway(g, 0, 1), Conway(g, 0, 2)],
                        [Conway(g, 1, 0), Conway(g, 1, 1), Conway(g, 1, 2)],
                        [Conway(g, 2, 0), Conway(g, 2, 1), Conway(g, 2, 2)]]
  {
    var r := Step(g);
    StepRow3(g, 0); StepRow3(g, 1); StepRow3(g, 2);
    assert r == [r[0], r[1], r[2]];
  }

  /** Row i of the next generation of any 0/1 board with three columns. */
  lemma StepRow3(g: Grid, i: nat)
    requires Rect(g) && Width(g) == 3 && Binary(g) && i < |g|
    ensures Step(g)[i] == [Conway(g, i, 0), Conway(g, i, 1), Conway(g, i, 2)]
  {
    ConwayRule(g, i, 0); ConwayRule(g, i, 1); ConwayRule(g, i, 2);
    Three(Step(g)[i]);
  }

  /** Row i of the next generation of any 0/1 board with four columns. */
  lemma StepRow4(g: Grid, i: nat)
    requires Rect(g) && Width(g) == 4 && Binary(g) && i < |g|
    ensures Step(g)[i] == [Conway(g, i, 0), Conway(g, i, 1), Conway(g, i, 2), Conway(g, i, 3)]
  {
    ConwayRule(g, i, 0); ConwayRule(g, i, 1); ConwayRule(g, i, 2); ConwayRule(g, i, 3);
    Four(Step(g)[i]);
  }

  /** A single live cell with no neighbours dies. */
  lemma LonelyDies(g: Grid)
    requires HasShape(g, 3, 3)
    requires g[0] == [0, 0, 0] && g[1] == [0, 1, 0] && g[2] == [0, 0, 0]
    ensures Step(g) == [[0, 0, 0], [0, 0, 0], [0, 0, 0]]
  {
    Step3x3(g);
  }

  /** Three live cells along the second index (a vertical line on screen,
      where the first index is x) turn into three along the first index. */
  lemma BlinkerVerticalToHorizontal(g: Grid)
    requires HasShape(g, 3, 3)
    requires g[0] == [0, 0, 0] && g[1] == [1, 1, 1] && g[2] == [0, 0, 0]
    ensures Step(g) == [[0, 1, 0], [0, 1, 0], [0, 1, 0]]
  {
    Step3x3(g);
  }

  /** Three live cells along the first index (a horizontal line on screen)
      turn into three along the second index. */
  lemma BlinkerHorizontalToVertical(g: Grid)
    requires HasShape(g, 3, 3)
    requires g[0] == [0, 1, 0] && g[1] == [0, 1, 0] && g[2] == [0, 1, 0]
    ensures Step(g) == [[0, 0, 0], [1, 1, 1], [0, 0, 0]]
  {
    Step3x3(g);
  }

  /** The blinker oscillates with period 2: one generation changes it, two
      restore it. */
  lemma BlinkerOscillates(g: Grid)
    requires HasShape(g, 3, 3)
    requires g[0] == [0, 0, 0] && g[1] == [1, 1, 1] && g[2] == [0, 0, 0]
    ensures Step(g) != g
    ensures Step(Step(g)) == g
  {
    BlinkerVerticalToHorizontal(g);
    var h := Step(g);
    assert h[0][1] != g[0][1];
    BlinkerHorizontalToVertical(h);
    Three(g[0]); Three(g[1]); Three(g[2]);
    assert g == [g[0], g[1], g[2]];
  }

  /** Under the Moore count, the top half of the block's board keeps its cells. */
  lemma BlockTopHalf(g: Grid)
    requires HasShape(g, 4, 4)
    requires g[0] == [0, 0, 0, 0] && g[1] == [0, 1, 1, 0] && g[2] == [0, 1, 1, 0] && g[3] == [0, 0, 0, 0]
    ensures [Conway(g, 0, 0), Conway(g, 0, 1), Conway(g, 0, 2), Conway(g, 0, 3)] == g[0]
    ensures [Conway(g, 1, 0), Conway(g, 1, 1), Conway(g, 1, 2), Conway(g, 1, 3)] == g[1]
  {
  }

  /** Under the Moore count, the bottom half of the block's board keeps its cells. */
  lemma BlockBottomHalf(g: Grid)
    requires HasShape(g, 4, 4)
    requires g[0] == [0, 0, 0, 0] && g[1] == [0, 1, 1, 0] && g[2] == [0, 1, 1, 0] && g[3] == [0, 0, 0, 0]
    ensures [Conway(g, 2, 0), Conway(g, 2, 1), Conway(g, 2, 2), Conway(g, 2, 3)] == g[2]
    ensures [Conway(g, 3, 0), Conway(g, 3, 1), Conway(g, 3, 2), Conway(g, 3, 3)] == g[3]
  {
  }

  /** The 2x2 block is a still life. */
  lemma BlockIsStill(g: Grid)
    requires HasShape(g, 4, 4)
    requires g[0] == [0, 0, 0, 0] && g[1] == [0, 1, 1, 0] && g[2] == [0, 1, 1, 0] && g[3] == [0, 0, 0, 0]
    ensures Step(g) == g
  {
    var r := Step(g);
    BlockTopHalf(g); BlockBottomHalf(g);
    StepRow4(g, 0); StepRow4(g, 1); StepRow4(g, 2); StepRow4(g, 3);
    assert r == [r[0], r[1], r[2], r[3]];
    assert g == [g[0], g[1], g[2], g[3]];
  }
}
