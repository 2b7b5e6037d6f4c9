// The high-score table: the five best scores with three-letter names, the
// search for where a new score belongs, and the name editor driven by key
// presses. The table is the program's static state; here it is an object
// every HighScore shares.
module HighScores {

  /** A Java `char`: a UTF-16 code unit. */
  newtype JavaChar = x: int | 0 <= x < 0x1_0000

  /** `(char) v`: Java keeps the low 16 bits. */
  function CharOf(v: int): (c: JavaChar)
    ensures 0 <= v < 0x1_0000 ==> c as int == v
  {
    (v % 0x1_0000) as JavaChar
  }

  const MaxScores := 5
  const NameLength := 3
  /** `'A'` and `'Z'`, the letters a name is edited within. */
  const AsciiFrameMin := 65
  const AsciiFrameMax := 90
  /** The name of an empty slot, "AAA". */
  const DefaultName: seq<JavaChar> := [65, 65, 65]
  /** The name a new high score is posted under, "YOU". */
  const PlayerName: seq<JavaChar> := [89, 79, 85]

  /** The `KeyEvent` codes the name editor reacts to. */
  const VkEnter := 10
  const VkLeft := 37
  const VkUp := 38
  const VkRight := 39
  const VkDown := 40
  const VkA := 65
  const VkD := 68
  const VkS := 83
  const VkW := 87

  predicate IsLetter(c: JavaChar)
  {
    AsciiFrameMin <= c as int <= AsciiFrameMax
  }

  // ---------------------------------------------------------------------
  // Table arithmetic

  /** Best first: every entry is at least every later one. */
  ghost predicate Descending(s: seq<int>)
  {
    forall i, j :: 0 <= i < j < |s| ==> s[i] >= s[j]
  }

  /** The first index whose entry `score` beats, or -1 when it beats none. */
  function InsertionPoint(s: seq<int>, score: int): (k: int)
    ensures -1 <= k < |s|
    ensures k >= 0 ==> score > s[k]
    ensures forall j :: 0 <= j < |s| && (k == -1 || j < k) ==> score <= s[j]
  {
    if |s| == 0 then -1
    else if score > s[0] then 0
    else
      var k := InsertionPoint(s[1..], score);
      if k == -1 then -1 else k + 1
  }

  /** `s` with `x` placed at `k`, the later entries moved down one and the last one dropped. */
  function Inserted<T>(s: seq<T>, k: int, x: T): (r: seq<T>)
    requires 0 <= k < |s|
    ensures |r| == |s|
    ensures forall j :: 0 <= j < |s| ==> r[j] == (if j < k then s[j] else if j == k then x else s[j - 1])
  {
    s[..k] + [x] + s[k..|s| - 1]
  }

  /** On a best-first table, a score can be posted exactly when it beats some entry. */
  lemma PostableIffBeatsSome(s: seq<int>, score: int)
    requires |s| == MaxScores && Descending(s)
    ensures s[MaxScores - 1] < score <==> InsertionPoint(s, score) != -1
  {
    var k := InsertionPoint(s, score);
    if k != -1 {
      assert s[k] >= s[MaxScores - 1] || k == MaxScores - 1;
    }
  }

  /** Placing a score at its insertion point keeps a best-first table best-first. */
  lemma InsertedDescending(s: seq<int>, score: int)
    requires Descending(s) && InsertionPoint(s, score) != -1
    ensures Descending(Inserted(s, InsertionPoint(s, score), score))
  {
    var k := InsertionPoint(s, score);
    var r := Inserted(s, k, score);
    forall i, j | 0 <= i < j < |r|
      ensures r[i] >= r[j]
    {
      if i < k && j > k {
        assert s[i] >= s[j - 1];
      } else if i == k && j > k {
        assert score > s[k] >= s[j - 1];
      } else if i > k {
        assert s[i - 1] >= s[j - 1];
      }
    }
  }

  /** The new table holds the old entries but the last, plus the new one. */
  lemma InsertedKeepsAllButLast<T>(s: seq<T>, k: int, x: T)
    requires 0 <= k < |s|
    ensures multiset(Inserted(s, k, x)) == multiset(s) - multiset{s[|s| - 1]} + multiset{x}
  {
    var n := |s|;
    assert s == s[..k] + s[k..n - 1] + [s[n - 1]];
    assert Inserted(s, k, x) == s[..k] + [x] + s[k..n - 1];
  }

  /**
   * As written, the insertion overwrites the slot instead of moving the
   * later entries down: on the table 50, 40, 30, 20, 10 the score 45 goes
   * to slot 1, and 40 is lost although 10 should have been the one to go.
   */
  lemma OverwriteLosesBeatenEntry()
    ensures var s := [50, 40, 30, 20, 10];
            InsertionPoint(s, 45) == 1 &&
            s[1 := 45] == [50, 45, 30, 20, 10] &&
            Inserted(s, 1, 45) == [50, 45, 40, 30, 20]
  {
    var s := [50, 40, 30, 20, 10];
    assert InsertionPoint(s[1..], 45) == 0;
  }

  // ---------------------------------------------------------------------
  // Letter wrapping

  /**
   * `shiftChar`'s arithmetic as written: a letter pushed below 'A' or past
   * 'Z' re-enters one letter too far in ('A' - 1 gives 'Y', 'Z' + 1 gives 'B').
   */
  function ShiftedAsWritten(c: JavaChar, distance: int): (r: JavaChar)
    ensures IsLetter(c) && (distance == 1 || distance == -1) ==> IsLetter(r)
  {
    var v := c as int + distance;
    CharOf(if v < AsciiFrameMin then AsciiFrameMax - (AsciiFrameMin - v)
           else if v > AsciiFrameMax then AsciiFrameMin + (v - AsciiFrameMax)
           else v)
  }

  /** The wrap the editor intends: one step below 'A' is 'Z' and one step past 'Z' is 'A'. */
  function Shifted(c: JavaChar, distance: int): (r: JavaChar)
    ensures IsLetter(c) && (distance == 1 || distance == -1) ==>
              IsLetter(r) && r as int - AsciiFrameMin == (c as int - AsciiFrameMin + distance) % 26
  {
    var v := c as int + distance;
    CharOf(if v < AsciiFrameMin then AsciiFrameMax + 1 - (AsciiFrameMin - v)
           else if v > AsciiFrameMax then AsciiFrameMin - 1 + (v - AsciiFrameMax)
           else v)
  }

  /** Up then down (or down then up) gives the letter back. */
  lemma ShiftedRoundTrip(c: JavaChar)
    requires IsLetter(c)
    ensures Shifted(Shifted(c, 1), -1) == c && Shifted(Shifted(c, -1), 1) == c
  {
  }

  /** The written wrap skips a letter, so 'Z' stepped up and back down ends on 'A'. */
  lemma ShiftedAsWrittenSkipsLetters()
    ensures ShiftedAsWritten(65, -1) == 89 && ShiftedAsWritten(90, 1) == 66
    ensures ShiftedAsWritten(ShiftedAsWritten(90, 1), -1) == 65
    ensures Shifted(65, -1) == 90 && Shifted(90, 1) == 65
  {
  }

  /** The cursor bound `receiveKeyPress` applies after every key: into [0, 2]. */
  function ClampCursor(v: int): (r: int)
    ensures 0 <= r < NameLength
    ensures 0 <= v < NameLength ==> r == v
    ensures v >= NameLength ==> r == NameLength - 1
    ensures v < 0 ==> r == 0
  {
    if v > 2 then 2 else if v < 0 then 0 else v
  }

  /** How far a key moves the cursor. */
  function CursorStep(keyCode: int): int
  {
    if keyCode == VkLeft || keyCode == VkA then -1
    else if keyCode == VkRight || keyCode == VkD then 1
    else 0
  }

  /** How far a key shifts the selected letter. */
  function LetterStep(keyCode: int): int
  {
    if keyCode == VkDown || keyCode == VkS then 1
    else if keyCode == VkUp || keyCode == VkW then -1
    else 0
  }

  /** A stored entry of the scores file. */
  datatype Entry = Entry(name: seq<JavaChar>, score: int)

  /** The static score table every HighScore shares. */
  class ScoreTable {
    const values: array<int>
    const names: array<seq<JavaChar>>

    ghost predicate Valid()
      reads this, names
    {
      values.Length == MaxScores && names.Length == MaxScores &&
      forall i :: 0 <= i < MaxScores ==> |names[i]| == NameLength
    }

    /**
     * `loadScores` with the file's entries given: the first five stored
     * entries, blank ones ("AAA", 0) after them. No file is no entries.
     */
    constructor (stored: seq<Entry>)
      requires forall e :: e in stored ==> |e.name| == NameLength
      ensures Valid() && fresh(values) && fresh(names)
      ensures forall i :: 0 <= i < MaxScores ==>
                values[i] == (if i < |stored| then stored[i].score else 0) &&
                names[i] == (if i < |stored| then stored[i].name else DefaultName)
    {
      var vs := new int[MaxScores];
      var ns := new seq<JavaChar>[MaxScores];
      for i := 0 to MaxScores
        invariant forall j :: 0 <= j < i ==>
                    vs[j] == (if j < |stored| then stored[j].score else 0) &&
                    ns[j] == (if j < |stored| then stored[j].name else DefaultName)
      {
        if i < |stored| {
          ns[i] := stored[i].name;
          vs[i] := stored[i].score;
        } else {
          ns[i] := DefaultName;
          vs[i] := 0;
        }
      }
      values := vs;
      names := ns;
    }

    /** `canPostScore`: the score beats the last entry, and then it has a slot in the table. */
    function CanPostScore(score: int): (b: bool)
      requires values.Length == MaxScores
      reads values
      ensures b ==> 0 <= InsertionPoint(values[..], score) < MaxScores
    {
      values[MaxScores - 1] < score
    }
  }

  class HighScore {
    const table: ScoreTable
    /** The letter of the name the editor is on. */
    var selectedNameChar: int
    /** The slot of the score being named, or -1 when the score was not posted. */
    var scoreInsertionPoint: int

    ghost predicate Valid()
      reads this, table, table.names
    {
      table.Valid() && -1 <= scoreInsertionPoint < MaxScores && 0 <= selectedNameChar < NameLength
    }

    /**
     * `new HighScore(score)`: a postable score is placed at its insertion
     * point under the name "YOU"; any other score leaves the table alone.
     */
    constructor (table: ScoreTable, score: int)
      requires table.Valid()
      modifies table.values, table.names
      ensures this.table == table && Valid() && selectedNameChar == 0
      ensures old(table.CanPostScore(score)) ==>
                scoreInsertionPoint == InsertionPoint(old(table.values[..]), score) &&
                table.values[..] == Inserted(old(table.values[..]), scoreInsertionPoint, score) &&
                table.names[..] == Inserted(old(table.names[..]), scoreInsertionPoint, PlayerName)
      ensures !old(table.CanPostScore(score)) ==>
                scoreInsertionPoint == -1 && unchanged(table.values, table.names)
    {
      this.table := table;
      selectedNameChar := 0;
      scoreInsertionPoint := -1;
      new;
      if table.CanPostScore(score) {
        MakeScoreInsertion(score);
        table.values[scoreInsertionPoint] := score;
        table.names[scoreInsertionPoint] := PlayerName;
      }
    }

    /** The search of `makeScoreInsertion`: the first slot the score beats, if any. */
    method FindInsertionPoint(score: int)
      requires Valid()
      modifies this`scoreInsertionPoint
      ensures Valid()
      ensures InsertionPoint(table.values[..], score) != -1 ==>
                scoreInsertionPoint == InsertionPoint(table.values[..], score)
      ensures InsertionPoint(table.values[..], score) == -1 ==> scoreInsertionPoint == old(scoreInsertionPoint)
    {
      for i := 0 to MaxScores
        invariant forall j :: 0 <= j < i ==> score <= table.values[j]
        invariant scoreInsertionPoint == old(scoreInsertionPoint)
      {
        if score > table.values[i] {
          scoreInsertionPoint := i;
          return;
        }
      }
    }

    /**
     * `makeScoreInsertion` as intended: find the slot, move the entries from
     * it on down one place (the last one drops out), write the score.
     */
    method MakeScoreInsertion(score: int)
      requires Valid() && table.CanPostScore(score)
      modifies this`scoreInsertionPoint, table.values, table.names
      ensures Valid()
      ensures scoreInsertionPoint == InsertionPoint(old(table.values[..]), score)
      ensures table.values[..] == Inserted(old(table.values[..]), scoreInsertionPoint, score)
      ensures table.names[..] == Inserted(old(table.names[..]), scoreInsertionPoint, old(table.names[..])[scoreInsertionPoint])
    {
      assert 0 <= InsertionPoint(table.values[..], score) < MaxScores;
      FindInsertionPoint(score);
      ShiftDown(scoreInsertionPoint);
      table.values[scoreInsertionPoint] := score;
    }

    /** The intended shift-down loop: the entries from slot `p` on move down one place, the last one drops out. */
    method ShiftDown(p: int)
      requires table.Valid() && 0 <= p < MaxScores
      modifies table.values, table.names
      ensures table.Valid()
      ensures table.values[..] == Inserted(old(table.values[..]), p, old(table.values[p]))
      ensures table.names[..] == Inserted(old(table.names[..]), p, old(table.names[p]))
    {
      var i := MaxScores - 1;
      while i > p
        invariant p <= i < MaxScores && table.Valid()
        invariant forall j :: 0 <= j < MaxScores ==>
                    table.values[j] == (if j <= i then old(table.values[j]) else old(table.values[j - 1])) &&
                    table.names[j] == (if j <= i then old(table.names[j]) else old(table.names[j - 1]))
      {
        table.values[i] := table.values[i - 1];
        table.names[i] := table.names[i - 1];
        i := i - 1;
      }
    }

    /**
     * The shift-down loop of `makeScoreInsertion` as written: it starts at
     * index 5 of the five-slot table and counts down while the index is
     * below `p`. Its first iteration already stores to index 5, past the table, so it
     * throws when `p > 5` and otherwise never runs.
     */
    method ShiftDownAsWritten(p: int) returns (thrown: bool)
      requires Valid()
      modifies table.values, table.names
      ensures thrown <==> MaxScores < p
      ensures !thrown ==> unchanged(table.values, table.names)
    {
      thrown := false;
      var i := MaxScores;
      while i < p
        invariant (i == MaxScores && !thrown && unchanged(table.values, table.names)) || (MaxScores < p && i < p)
        invariant table.Valid()
        decreases i
      {
        if !(1 <= i < MaxScores) {
          thrown := true;
          return;
        }
        table.values[i] := table.values[i - 1];
        table.names[i] := table.names[i - 1];
        i := i - 1;
      }
    }

    /** `makeScoreInsertion` as written: the dead shift loop leaves the beaten entry overwritten. */
    method MakeScoreInsertionAsWritten(score: int)
      requires Valid() && table.CanPostScore(score)
      modifies this`scoreInsertionPoint, table.values, table.names
      ensures Valid()
      ensures scoreInsertionPoint == InsertionPoint(old(table.values[..]), score)
      ensures table.values[..] == old(table.values[..])[scoreInsertionPoint := score]
      ensures table.names[..] == old(table.names[..])
    {
      FindInsertionPoint(score);
      var thrown := ShiftDownAsWritten(scoreInsertionPoint);
      table.values[scoreInsertionPoint] := score;
    }

    /** `shiftChar` with the intended wrap: the selected letter of the posted name moves by `distance`. */
    method ShiftChar(distance: int)
      requires Valid() && scoreInsertionPoint != -1
      modifies table.names
      ensures Valid()
      ensures table.names[..] ==
                old(table.names[..])[scoreInsertionPoint :=
                  old(table.names[scoreInsertionPoint])[selectedNameChar :=
                    Shifted(old(table.names[scoreInsertionPoint][selectedNameChar]), distance)]]
    {
      var name := table.names[scoreInsertionPoint];
      table.names[scoreInsertionPoint] := name[selectedNameChar := Shifted(name[selectedNameChar], distance)];
    }

    /** `shiftChar` as written, with the wrap that skips a letter. */
    method ShiftCharAsWritten(distance: int)
      requires Valid() && scoreInsertionPoint != -1
      modifies table.names
      ensures Valid()
      ensures table.names[..] ==
                old(table.names[..])[scoreInsertionPoint :=
                  old(table.names[scoreInsertionPoint])[selectedNameChar :=
                    ShiftedAsWritten(old(table.names[scoreInsertionPoint][selectedNameChar]), distance)]]
    {
      var name := table.names[scoreInsertionPoint];
      table.names[scoreInsertionPoint] := name[selectedNameChar := ShiftedAsWritten(name[selectedNameChar], distance)];
    }

    /**
     * `receiveKeyPress`: nothing happens unless a score was posted. Down/S
     * and Up/W step the selected letter, Left/A and Right/D move the cursor,
     * which is then held within the three letters; Enter asks for the table
     * to be saved (`save`), the file write itself being outside the model.
     */
    method ReceiveKeyPress(keyCode: int) returns (save: bool)
      requires Valid()
      modifies this`selectedNameChar, table.names
      ensures Valid()
      ensures scoreInsertionPoint == -1 ==>
                !save && selectedNameChar == old(selectedNameChar) && unchanged(table.names)
      ensures scoreInsertionPoint != -1 ==>
                save == (keyCode == VkEnter) &&
                selectedNameChar == ClampCursor(old(selectedNameChar) + CursorStep(keyCode)) &&
                table.names[..] ==
                  (if LetterStep(keyCode) == 0 then old(table.names[..])
                   else old(table.names[..])[scoreInsertionPoint :=
                          old(table.names[scoreInsertionPoint])[old(selectedNameChar) :=
                            Shifted(old(table.names[scoreInsertionPoint][selectedNameChar]), LetterStep(keyCode))]])
    {
      save := false;
      if scoreInsertionPoint == -1 {
        return;
      }
      if keyCode == VkDown || keyCode == VkS {
        ShiftChar(1);
      } else if keyCode == VkUp || keyCode == VkW {
        ShiftChar(-1);
      } else if keyCode == VkLeft || keyCode == VkA {
        selectedNameChar := selectedNameChar - 1;
      } else if keyCode == VkRight || keyCode == VkD {
        selectedNameChar := selectedNameChar + 1;
      } else if keyCode == VkEnter {
        save := true;
      }
      if selectedNameChar > 2 {
        selectedNameChar := 2;
      } else if selectedNameChar < 0 {
        selectedNameChar := 0;
      }
    }
  }
}
