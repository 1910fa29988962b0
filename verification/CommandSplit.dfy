/** The commands of a whole text: as the plain automaton splits it, started again
    where each command ends, and as the line reader does, which first forgets the
    white space left on the last line of a command. */
module CommandSplit {

  import opened Wrappers
  import opened CommandAutomaton

  predicate AllSpace(s: string) {
    forall i | 0 <= i < |s| :: IsSpace(s[i])
  }

  /** find_first_not_of(" \t\r\n"), with the length for "not found". */
  function FirstNonBlank(s: string): (k: nat)
    ensures k <= |s| && AllBlank(s, k)
    ensures k < |s| ==> !IsBlank(s[k])
  {
    FirstNonBlankFrom(s, 0)
  }

  function FirstNonBlankFrom(s: string, from: nat): (k: nat)
    requires from <= |s| && AllBlank(s, from)
    ensures from <= k <= |s| && AllBlank(s, k)
    ensures k < |s| ==> !IsBlank(s[k])
    decreases |s| - from
  {
    if from == |s| || !IsBlank(s[from]) then from else FirstNonBlankFrom(s, from + 1)
  }

  lemma FirstNonBlankIs(s: string, k: nat)
    requires k <= |s| && AllBlank(s, k) && (k < |s| ==> !IsBlank(s[k]))
    ensures FirstNonBlank(s) == k
  {
  }

  /** The first character that is not blank is a dot or a backslash. */
  predicate BeginsCommand(s: string) {
    var f := FirstNonBlank(s);
    f < |s| && (s[f] == '.' || s[f] == '\\')
  }

  /** The command that ends at `k`; for dot and backslash commands without the
      blanks before it. */
  function Shown(text: string, k: nat): string
    requires k <= |text|
  {
    if StateAt(text, k).CommandDone? && FirstNonBlank(text) <= k then text[FirstNonBlank(text)..k] else text[..k]
  }

  function LineLength(s: string): (n: nat)
    ensures n <= |s|
    ensures s != "" ==> n > 0
  {
    if s == "" then 0 else if s[0] == '\n' then 1 else 1 + LineLength(s[1..])
  }

  /** The commands by the automaton alone: nothing is said here of lines,
      buffers or calls. */
  function PlainSplit(text: string): seq<string>
    decreases |text|
  {
    match EndOfCommand(text)
    case None => []
    case Some(k) => if k == 0 then [] else [Shown(text, k)] + PlainSplit(text[k..])
  }

  /** The rest of the line on which an SQL command ends is only white space. */
  predicate IsCleared(last: char, after: string) {
    last != '\n' && AllSpace(after[..LineLength(after)])
  }

  /** What follows a command that ends at `k`, without the rest of its last line
      if that is only white space. */
  function Rest(text: string, k: nat): (rest: string)
    requires 0 < k <= |text|
    ensures |rest| < |text|
  {
    var after := text[k..];
    if IsCleared(text[k - 1], after) then after[LineLength(after)..] else after
  }

  /** The commands as the line reader finds them. */
  function SplitCommands(text: string): seq<string>
    decreases |text|
  {
    match EndOfCommand(text)
    case None => []
    case Some(k) => if k == 0 then [] else [Shown(text, k)] + SplitCommands(Rest(text, k))
  }

  // ---------- When the two agree ----------

  function Trimmed(s: string): string {
    if s != "" && IsSpace(s[0]) then Trimmed(s[1..]) else s
  }

  /** The same commands, up to white space before them. */
  predicate SameUpToSpace(a: seq<string>, b: seq<string>) {
    |a| == |b| && forall i | 0 <= i < |a| :: Trimmed(a[i]) == Trimmed(b[i])
  }

  /** White space that the line reader forgets stands in the way of a dot or
      backslash command: it holds a vertical tab or a form feed, which count as
      white space but not as blanks. */
  predicate ForgetsObstacle(last: char, after: string) {
    var n := LineLength(after);
    IsCleared(last, after) && !AllBlank(after[..n], n) && BeginsCommand(after[n..])
  }

  /** This happens after some command of the plain split. */
  predicate SomeObstacle(text: string)
    decreases |text|
  {
    match EndOfCommand(text)
    case None => false
    case Some(k) => k > 0 && (ForgetsObstacle(text[k - 1], text[k..]) || SomeObstacle(text[k..]))
  }

  lemma SameUpToSpaceCons(first: string, a: seq<string>, other: string, b: seq<string>)
    ensures SameUpToSpace([first] + a, [other] + b) <==> Trimmed(first) == Trimmed(other) && SameUpToSpace(a, b)
  {
    var x, y := [first] + a, [other] + b;
    assert x[1..] == a && y[1..] == b;
    if SameUpToSpace(x, y) {
      assert Trimmed(x[0]) == Trimmed(y[0]);
      forall i | 0 <= i < |a| ensures Trimmed(a[i]) == Trimmed(b[i]) {
        assert Trimmed(x[i + 1]) == Trimmed(y[i + 1]);
      }
    }
  }

  lemma {:induction false} TrimmedOf(space: string, s: string)
    requires AllSpace(space)
    ensures Trimmed(space + s) == Trimmed(s)
  {
    if space == "" {
      assert space + s == s;
    } else {
      TrimmedOf(space[1..], s);
      assert (space + s)[1..] == space[1..] + s;
    }
  }

  lemma {:induction false} TrimmedKeepsLast(s: string)
    requires s != "" && !IsSpace(s[|s| - 1])
    ensures Trimmed(s) != "" && Trimmed(s)[|Trimmed(s)| - 1] == s[|s| - 1]
  {
    if IsSpace(s[0]) {
      TrimmedKeepsLast(s[1..]);
    }
  }

  /** A dot or backslash command has nothing but blanks before it. */
  lemma {:induction false} CommandBegins(text: string, p: nat)
    requires p <= |text| && (StateAt(text, p).Command? || StateAt(text, p).CommandDone?)
    ensures BeginsCommand(text) && FirstNonBlank(text) < p
  {
    var q, c := StateAt(text, p - 1), text[p - 1];
    if q.Command? || q.CommandDone? {
      CommandBegins(text, p - 1);
    } else {
      SqlIsBlank(text, p - 1);
    }
  }

  /** As long as the automaton says so, it has seen only blanks. */
  lemma {:induction false} SqlIsBlank(text: string, p: nat)
    requires p <= |text| && StateAt(text, p).Sql? && StateAt(text, p).blank
    ensures AllBlank(text, p)
  {
    if p > 0 {
      SqlIsBlank(text, p - 1);
    }
  }

  lemma SqlEndsInSemicolon(text: string, k: nat)
    requires EndOfCommand(text) == Some(k) && StateAt(text, k).SqlDone?
    ensures k > 0 && text[k - 1] == ';'
  {
    NotDoneBefore(text, 0);
  }

  /** The command as it is returned: all of it up to the semicolon, or from the dot
      or backslash to the end of the line. */
  lemma ShownIs(text: string, k: nat)
    requires EndOfCommand(text) == Some(k)
    ensures 0 < k <= |text| && FirstNonBlank(text) < k
    ensures Shown(text, k) == if text[k - 1] == ';' then text[..k] else text[FirstNonBlank(text)..k]
  {
    NotDoneBefore(text, 0);
    if StateAt(text, k).SqlDone? {
      SqlEndsInSemicolon(text, k);
      NotAllBlank(text, k);
    } else {
      CommandBegins(text, k);
      assert text[k - 1] == '\n';
    }
  }

  /** White space before a text that it does not keep from beginning a command
      moves the automaton's states along, except that it may already know that
      not all is blank. */
  lemma {:induction false} SpaceShiftsState(space: string, rest: string, p: nat)
    requires space != "" && AllSpace(space) && p <= |rest|
    requires AllBlank(space, |space|) || !BeginsCommand(rest)
    ensures var q, shifted := StateAt(rest, p), StateAt(space + rest, |space| + p);
            || shifted == q
            || (!AllBlank(space, |space|) && AllBlank(rest, p)
                && q == SqlAt(rest, p) && shifted == Sql(false, q.boundary, Nothing))
  {
    var text := space + rest;
    if p == 0 {
      SkipSql(text, 0, |space|);
    } else {
      SpaceShiftsState(space, rest, p - 1);
      assert text[|space| + p - 1] == rest[p - 1];
      if AllBlank(rest, p - 1) && !IsBlank(rest[p - 1]) {
        FirstNonBlankIs(rest, p - 1);
      }
    }
  }

  lemma SpaceShiftsEnd(space: string, rest: string)
    requires space != "" && AllSpace(space)
    requires AllBlank(space, |space|) || !BeginsCommand(rest)
    ensures var end, shifted := EndOfCommand(rest), EndOfCommand(space + rest);
            if end.None? then shifted == None else shifted == Some(|space| + end.value)
  {
    var end := EndOfCommand(rest);
    NotDoneBefore(rest, 0);
    if end == None {
      SpaceShiftsState(space, rest, |rest|);
      NoEndWithinText(space + rest);
    } else {
      var k := end.value;
      SpaceShiftsState(space, rest, k - 1);
      SpaceShiftsState(space, rest, k);
      EndIsFirstDone(space + rest, |space| + k);
    }
  }

  lemma SpaceShiftsFirstNonBlank(space: string, rest: string)
    requires AllBlank(space, |space|)
    ensures FirstNonBlank(space + rest) == |space| + FirstNonBlank(rest)
  {
    var text, f := space + rest, FirstNonBlank(rest);
    assert forall i | |space| <= i < |text| :: text[i] == rest[i - |space|];
    FirstNonBlankIs(text, |space| + f);
  }

  /** The white space before it is all that can tell the first command of the
      longer text from that of the shorter one. */
  lemma SpaceKeepsShown(space: string, rest: string, k: nat)
    requires space != "" && AllSpace(space)
    requires AllBlank(space, |space|) || !BeginsCommand(rest)
    requires EndOfCommand(rest) == Some(k)
    ensures Trimmed(Shown(space + rest, |space| + k)) == Trimmed(Shown(rest, k))
  {
    var text := space + rest;
    SpaceShiftsState(space, rest, k);
    if StateAt(rest, k).CommandDone? {
      CommandBegins(rest, k);
      SpaceShiftsFirstNonBlank(space, rest);
      assert Shown(text, |space| + k) == Shown(rest, k);
    } else {
      assert Shown(text, |space| + k) == space + Shown(rest, k);
      TrimmedOf(space, rest[..k]);
    }
  }

  /** White space that does not stand in the way changes nothing else. */
  lemma SpaceKeepsSplit(space: string, rest: string)
    requires space != "" && AllSpace(space)
    requires AllBlank(space, |space|) || !BeginsCommand(rest)
    ensures SameUpToSpace(PlainSplit(space + rest), PlainSplit(rest))
    ensures SomeObstacle(space + rest) <==> SomeObstacle(rest)
  {
    SpaceShiftsEnd(space, rest);
    var text, end := space + rest, EndOfCommand(rest);
    if end.None? {
      assert PlainSplit(text) == PlainSplit(rest) == [];
    } else {
      var k := end.value;
      SpaceKeepsShown(space, rest, k);
      assert text[|space| + k..] == rest[k..] && text[|space| + k - 1] == rest[k - 1];
      SameAfterEnd(text, |space| + k, rest, k);
    }
  }

  lemma SameAfterEnd(text: string, j: nat, rest: string, k: nat)
    requires EndOfCommand(text) == Some(j) && EndOfCommand(rest) == Some(k) && 0 < k && 0 < j
    requires text[j..] == rest[k..] && text[j - 1] == rest[k - 1]
    requires Trimmed(Shown(text, j)) == Trimmed(Shown(rest, k))
    ensures SameUpToSpace(PlainSplit(text), PlainSplit(rest))
    ensures SomeObstacle(text) <==> SomeObstacle(rest)
  {
    var after := PlainSplit(rest[k..]);
    SameUpToSpaceCons(Shown(text, j), after, Shown(rest, k), after);
  }

  /** Text that ends in a newline, as lines put together do. */
  predicate IsLines(text: string) {
    text == "" || text[|text| - 1] == '\n'
  }

  lemma {:induction false} NextNewline(text: string, from: nat) returns (i: nat)
    requires from < |text| && text[|text| - 1] == '\n'
    ensures from <= i < |text| && text[i] == '\n' && forall j | from <= j < i :: text[j] != '\n'
    decreases |text| - from
  {
    if text[from] == '\n' {
      i := from;
    } else {
      i := NextNewline(text, from + 1);
    }
  }

  lemma CommandEndsAtNewline(text: string) returns (k: nat)
    requires IsLines(text) && BeginsCommand(text)
    ensures EndOfCommand(text) == Some(k) && StateAt(text, k).CommandDone?
    ensures FirstNonBlank(text) < k && text[k - 1] == '\n'
  {
    var f := FirstNonBlank(text);
    SkipSql(text, 0, f);
    assert StateAt(text, f + 1) == Command;
    var i := NextNewline(text, f + 1);
    SkipToNewline(text, f + 1, i);
    k := i + 1;
    EndIsFirstDone(text, k);
  }

  lemma {:induction false} LineEndsAt(s: string, i: nat)
    requires i < |s| && s[i] == '\n' && forall j | 0 <= j < i :: s[j] != '\n'
    ensures LineLength(s) == i + 1
  {
    if i > 0 {
      LineEndsAt(s[1..], i - 1);
    }
  }

  /** With a vertical tab or form feed before it, what could be a dot or
      backslash command is taken for SQL. */
  lemma ObstacleMakesSql(space: string, rest: string, k: nat)
    requires AllSpace(space) && !AllBlank(space, |space|)
    requires EndOfCommand(space + rest) == Some(k)
    ensures k > 0 && StateAt(space + rest, k).SqlDone?
    ensures var shown := Shown(space + rest, k); shown != "" && shown[|shown| - 1] == ';'
  {
    var text := space + rest;
    if StateAt(text, k).CommandDone? {
      var i :| 0 <= i < |space| && !IsBlank(space[i]);
      assert text[i] == space[i];
      CommandBegins(text, k);
      assert false;
    }
    SqlEndsInSemicolon(text, k);
  }

  /** The commands found are then never the same. */
  lemma ObstacleChangesSplit(space: string, rest: string)
    requires AllSpace(space) && !AllBlank(space, |space|)
    requires IsLines(rest) && BeginsCommand(rest)
    ensures !SameUpToSpace(SplitCommands(rest), PlainSplit(space + rest))
  {
    var e := CommandEndsAtNewline(rest);
    assert Shown(rest, e) == rest[FirstNonBlank(rest)..e];
    var end := EndOfCommand(space + rest);
    if end.Some? {
      ObstacleMakesSql(space, rest, end.value);
      DifferentFirst(rest, e, space + rest, end.value);
    }
  }

  lemma DifferentFirst(rest: string, e: nat, text: string, k: nat)
    requires EndOfCommand(rest) == Some(e) && EndOfCommand(text) == Some(k) && 0 < e && 0 < k
    requires var shown := Shown(rest, e); shown != "" && !IsSpace(shown[0]) && shown[|shown| - 1] == '\n'
    requires var shown := Shown(text, k); shown != "" && shown[|shown| - 1] == ';'
    ensures !SameUpToSpace(SplitCommands(rest), PlainSplit(text))
  {
    TrimmedKeepsLast(Shown(text, k));
    SameUpToSpaceCons(Shown(rest, e), SplitCommands(Rest(rest, e)), Shown(text, k), PlainSplit(text[k..]));
  }

  /** The line reader finds the commands of the plain split, up to the white space
      before them, exactly if it never forgets such an obstacle. */
  lemma {:induction false} SplitsAgree(text: string)
    requires IsLines(text)
    ensures SameUpToSpace(SplitCommands(text), PlainSplit(text)) <==> !SomeObstacle(text)
    decreases |text|
  {
    var end := EndOfCommand(text);
    if end.Some? && end.value > 0 {
      var k := end.value;
      var after, rest := text[k..], Rest(text, k);
      SplitsAgree(rest);
      AgreeAfter(text[k - 1], after, rest);
      SameUpToSpaceCons(Shown(text, k), SplitCommands(rest), Shown(text, k), PlainSplit(after));
    }
  }

  lemma AgreeAfter(last: char, after: string, rest: string)
    requires IsLines(rest) && rest == if IsCleared(last, after) then after[LineLength(after)..] else after
    requires SameUpToSpace(SplitCommands(rest), PlainSplit(rest)) <==> !SomeObstacle(rest)
    ensures SameUpToSpace(SplitCommands(rest), PlainSplit(after))
            <==> !(ForgetsObstacle(last, after) || SomeObstacle(after))
  {
    if IsCleared(last, after) && after != "" {
      var space := after[..LineLength(after)];
      assert after == space + rest;
      AgreeAfterSpace(space, rest);
    }
  }

  lemma AgreeAfterSpace(space: string, rest: string)
    requires space != "" && AllSpace(space) && IsLines(rest)
    requires SameUpToSpace(SplitCommands(rest), PlainSplit(rest)) <==> !SomeObstacle(rest)
    ensures SameUpToSpace(SplitCommands(rest), PlainSplit(space + rest))
            <==> !((!AllBlank(space, |space|) && BeginsCommand(rest)) || SomeObstacle(space + rest))
  {
    if !AllBlank(space, |space|) && BeginsCommand(rest) {
      ObstacleChangesSplit(space, rest);
    } else {
      SpaceKeepsSplit(space, rest);
    }
  }

  lemma DotLine()
    ensures SplitCommands(".x\n") == [".x\n"] && BeginsCommand(".x\n")
  {
    var dot := ".x\n";
    assert FirstNonBlank(dot) == 0 && StateAt(dot, 2) == Command;
    EndIsFirstDone(dot, 3);
    assert Shown(dot, 3) == dot[0..3] == dot && dot[3..] == "" && Rest(dot, 3) == "";
    assert SplitCommands(dot) == [dot] + SplitCommands("");
  }

  /** A vertical tab after a command, and a dot command on the next line: the line
      reader returns both, but the tab keeps the automaton from the second. */
  lemma VerticalTabExample()
    ensures var text := ";\U{0B}\n.x\n";
            SplitCommands(text) == [";", ".x\n"] && PlainSplit(text) == [";"] && SomeObstacle(text)
  {
    var text, after, dot := ";\U{0B}\n.x\n", "\U{0B}\n.x\n", ".x\n";
    assert StateAt(text, 1) == SqlDone;
    EndIsFirstDone(text, 1);
    assert text[1..] == after && text[..1] == ";";
    assert StateAt(after, 2) == StateAt(after, 3) == Sql(false, true, Nothing);
    assert StateAt(after, 5) == Sql(false, true, Nothing);
    NoEndWithinText(after);
    assert after[2..] == dot;
    LineEndsAt(after, 1);
    assert AllSpace(after[..2]) && !IsBlank(after[..2][0]);
    assert Rest(text, 1) == dot;
    DotLine();
  }
}
