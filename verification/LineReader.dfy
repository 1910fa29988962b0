/** The command-line reader: it scans a growing buffer for the end of a command,
    jumping from one special character to the next, fetches further lines when it
    runs out, and keeps what follows the command for the next call. */
module LineReader {

  import opened Wrappers
  import opened CommandAutomaton
  import opened CommandSplit

  datatype LineState =
    Normal | SingleQuote | SingleQuoteWithEscape | DoubleQuote | DoubleQuoteWithEscape | InComment | InCommand

  const TWO_TO_64: nat := 0x1_0000_0000_0000_0000

  function Joined(lines: seq<string>): string {
    if lines == [] then "" else lines[0] + Joined(lines[1..])
  }

  /** A line as the contract of the input source promises it: a newline at the
      end and nowhere else. */
  predicate IsLine(line: string) {
    && line != ""
    && line[|line| - 1] == '\n'
    && forall i | 0 <= i < |line| - 1 :: line[i] != '\n'
  }

  predicate AllLines(lines: seq<string>) {
    forall i | 0 <= i < |lines| :: IsLine(lines[i])
  }

  function Cleared(s: string): string {
    if AllSpace(s) then "" else s
  }

  /** What each scanner state searches its buffer for. */
  predicate IsSpecial(state: LineState, c: char) {
    match state
    case Normal => IsSqlSpecial(c)
    case SingleQuote => c == '\''
    case SingleQuoteWithEscape => c == '\'' || c == '\\'
    case DoubleQuote => c == '"'
    case DoubleQuoteWithEscape => c == '"' || c == '\\'
    case InComment => c == '\n'
    case InCommand => c == '\n'
  }

  function FindSpecial(buffer: string, state: LineState, from: nat): (r: Option<nat>)
    ensures r.Some? ==> from <= r.value < |buffer| && IsSpecial(state, buffer[r.value])
    ensures r.Some? ==> forall i | from <= i < r.value :: !IsSpecial(state, buffer[i])
    ensures r.None? ==> forall i | from <= i < |buffer| :: !IsSpecial(state, buffer[i])
    decreases |buffer| - from
  {
    if from >= |buffer| then None
    else if IsSpecial(state, buffer[from]) then Some(from)
    else FindSpecial(buffer, state, from + 1)
  }

  /** std::string::substr: a count that runs past the end is cut off there. */
  function Substr(s: string, from: nat, count: nat): string
    requires from <= |s|
  {
    if from + count <= |s| then s[from..from + count] else s[from..]
  }

  // ---------- What a call should return and leave behind ----------

  /** Reading lines until position `k` is in the buffer, and dropping what comes
      before `k`. A remainder of nothing but white space is dropped, too. */
  function Advance(buffer: string, lines: seq<string>, k: nat): (string, seq<string>)
    decreases |lines|
  {
    if k <= |buffer| then (Cleared(buffer[k..]), lines)
    else if lines == [] then ("", [])
    else Advance(buffer + lines[0], lines[1..], k)
  }

  datatype Outcome = Outcome(command: string, leftover: string, lines: seq<string>)

  /** The reference for one call. At the end of input it returns the empty
      string, the rest of the input having been read. */
  function NextCommand(leftover: string, lines: seq<string>): Outcome {
    var text := leftover + Joined(lines);
    match EndOfCommand(text)
    case None => Outcome("", leftover, [])
    case Some(k) =>
      var (rest, remaining) := Advance(leftover, lines, k);
      Outcome(Shown(text, k), rest, remaining)
  }

  /** The leftover has a newline before a dot or backslash that begins a command. */
  predicate NewlineBeforeCommand(leftover: string) {
    var f := FirstNonBlank(leftover);
    && f < |leftover|
    && (leftover[f] == '.' || leftover[f] == '\\')
    && exists i | 0 <= i < f :: leftover[i] == '\n'
  }

  /** What becomes of such a leftover: the line that ends before the command is
      taken for the command. Nothing is returned if the command follows at once;
      otherwise the length wraps, and all from the command on is returned and
      left over as well. */
  function HiddenOutcome(leftover: string, lines: seq<string>): Outcome
    requires NewlineBeforeCommand(leftover)
  {
    var f, n := FirstNonBlank(leftover), LineLength(leftover);
    Outcome(if n == f then "" else leftover[f..], leftover[n..], lines)
  }

  // ---------- The scanner state against the automaton ----------

  /** The state the scanner is in at `p` matches the automaton after the first `p`
      characters. In plain SQL the automaton may still wait for the second
      character of a pair that the scanner has already seen is none. A scanner
      that looks for the end of a command may stand before the command, at `meta`. */
  ghost predicate Agrees(state: LineState, text: string, size: nat, p: nat, meta: nat)
    requires p <= size <= |text|
  {
    match state
    case Normal =>
      || StateAt(text, p) == SqlAt(text, p)
      || (p < size && StateAt(text, p).Sql? && Step(StateAt(text, p), text[p]) == Step(SqlAt(text, p), text[p]))
    case SingleQuote => StateAt(text, p) == Quoted('\'', false, false)
    case SingleQuoteWithEscape => StateAt(text, p) == Quoted('\'', true, false)
    case DoubleQuote => StateAt(text, p) == Quoted('"', false, false)
    case DoubleQuoteWithEscape => StateAt(text, p) == Quoted('"', true, false)
    case InComment => StateAt(text, p).Comment?
    case InCommand =>
      && meta < size
      && AllBlank(text, meta) && (text[meta] == '.' || text[meta] == '\\')
      && StateAt(text, meta + 1).Command?
      && (p > meta ==> StateAt(text, p).Command?)
  }

  lemma AgreesNotDone(state: LineState, text: string, size: nat, p: nat, meta: nat)
    requires p <= size <= |text| && Agrees(state, text, size, p, meta)
    requires state.InCommand? ==> p > meta
    ensures !StateAt(text, p).Done()
  {
  }

  /** Nothing special between `p` and `k`: the automaton at `k` is where the
      scanner says it is. */
  lemma SkipPlain(state: LineState, text: string, size: nat, p: nat, k: nat, meta: nat)
    requires p <= k <= size <= |text| && Agrees(state, text, size, p, meta)
    requires forall i | p <= i < k :: !IsSpecial(state, text[i])
    requires state.InCommand? ==> meta < k
    ensures Agrees(state, text, size, k, meta)
    ensures state.Normal? && p < k ==> StateAt(text, k) == SqlAt(text, k)
  {
    match state
    case Normal =>
      if p < k {
        assert StateAt(text, p + 1) == SqlAt(text, p + 1);
        SkipSql(text, p + 1, k);
      }
    case SingleQuote => SkipQuoted(text, p, k, '\'', false);
    case SingleQuoteWithEscape => SkipQuoted(text, p, k, '\'', true);
    case DoubleQuote => SkipQuoted(text, p, k, '"', false);
    case DoubleQuoteWithEscape => SkipQuoted(text, p, k, '"', true);
    case InComment => SkipToNewline(text, p, k);
    case InCommand => SkipToNewline(text, if p > meta then p else meta + 1, k);
  }

  lemma SqlNext(text: string, size: nat, p: nat, loc: nat)
    requires p <= loc < size <= |text| && Agrees(Normal, text, size, p, 0)
    requires forall i | p <= i < loc :: !IsSqlSpecial(text[i])
    ensures StateAt(text, loc + 1) == StepSql(AllBlank(text, loc), BoundaryAt(text, loc), text[loc])
  {
    SkipPlain(Normal, text, size, p, loc, 0);
  }

  /** The scanner in the middle of a call that began with `leftover` and `lines`. */
  ghost predicate Scanning(leftover: string, lines: seq<string>, text: string,
                           buffer: string, remaining: seq<string>, state: LineState, scan: nat, meta: nat)
  {
    && AllLines(remaining)
    && buffer + Joined(remaining) == text
    && (remaining != [] ==> buffer == "" || buffer[|buffer| - 1] == '\n')
    && scan <= |buffer| + 1
    && (scan <= |buffer| ==> Agrees(state, text, |buffer|, scan, meta))
    && (scan > |buffer| ==> remaining == [] && (state.SingleQuoteWithEscape? || state.DoubleQuoteWithEscape?)
                            && !StateAt(text, |text|).Done())
    && (EndOfCommand(text).Some? ==>
          Advance(buffer, remaining, EndOfCommand(text).value) == Advance(leftover, lines, EndOfCommand(text).value))
    && ((buffer == leftover && remaining == lines) || forall i | scan <= i < |buffer| - 1 :: buffer[i] != '\n')
    && (NewlineBeforeCommand(leftover) ==>
          scan == 0 && buffer == leftover && remaining == lines && (state.Normal? || state.InCommand?))
    && (state.InCommand? && !NewlineBeforeCommand(leftover) ==> forall i | scan <= i < meta :: text[i] != '\n')
  }

  // ---------- What the scanner does at a special character ----------

  datatype Move = Finish | Continue(state: LineState, scan: nat) | Refill(scan: nat)

  /** In plain SQL: the character may end the command, change the state, need a
      look at the next character, or be nothing special after all. */
  function SqlMove(buffer: string, scan: nat, loc: nat): Move
    requires scan <= loc < |buffer|
  {
    match buffer[loc]
    case ';' => Finish
    case '\'' => Continue(SingleQuote, loc + 1)
    case '"' => Continue(DoubleQuote, loc + 1)
    case '-' =>
      if |buffer| > loc + 1 then
        if buffer[loc + 1] == '-' then Continue(InComment, loc + 2) else Continue(Normal, loc + 1)
      else Refill(loc)
    case '.' => CommandMove(buffer, scan, loc)
    case '\\' => CommandMove(buffer, scan, loc)
    case _ =>  // e or E
      if loc == 0 || IsSpace(buffer[loc - 1]) || IsPunct(buffer[loc - 1]) then
        if |buffer| > loc + 1 then
          if buffer[loc + 1] == '\'' then Continue(SingleQuoteWithEscape, loc + 2)
          else if buffer[loc + 1] == '"' then Continue(DoubleQuoteWithEscape, loc + 2)
          else Continue(Normal, loc + 1)
        else Refill(loc)
      else Continue(Normal, loc + 1)
  }

  /** A dot or backslash begins a command if only blanks precede it. The scan
      position is left where it is. */
  function CommandMove(buffer: string, scan: nat, loc: nat): Move
    requires scan <= loc < |buffer|
  {
    if loc == FirstNonBlank(buffer) then Continue(InCommand, scan) else Continue(Normal, loc + 1)
  }

  /** In quotes and comments: back to plain SQL, or over an escaped character. */
  function NestedMove(state: LineState, buffer: string, loc: nat): Move
    requires !state.Normal? && !state.InCommand? && loc < |buffer|
  {
    match state
    case SingleQuote => Continue(Normal, loc + 1)
    case DoubleQuote => Continue(Normal, loc + 1)
    case InComment => Continue(Normal, loc + 1)
    case SingleQuoteWithEscape => if buffer[loc] == '\'' then Continue(Normal, loc + 1) else Continue(state, loc + 2)
    case DoubleQuoteWithEscape => if buffer[loc] == '"' then Continue(Normal, loc + 1) else Continue(state, loc + 2)
  }

  /** What must hold for a move at `loc` to follow the automaton. */
  ghost predicate MoveAgrees(move: Move, text: string, buffer: string, scan: nat, loc: nat, meta: nat)
    requires |buffer| <= |text| && scan <= loc < |buffer|
  {
    match move
    case Finish => StateAt(text, loc + 1).SqlDone?
    case Continue(s, p) =>
      && (if s.InCommand? then p == scan && loc == FirstNonBlank(buffer) else loc < p)
      && p <= |buffer| && Agrees(s, text, |buffer|, p, loc)
    case Refill(p) =>
      && p == loc == |buffer| - 1 && buffer[loc] != '\n' && !StateAt(text, loc + 1).Done()
      && Agrees(Normal, text, |buffer|, p, meta)
  }

  /** What the scanner does next, other than in a dot or backslash command that
      is complete: at the end of the buffer it needs more input. */
  function NextMove(buffer: string, state: LineState, scan: nat): (move: Move)
    requires state.InCommand? ==> FindSpecial(buffer, state, scan).None?
    ensures move.Finish? ==> FindSpecial(buffer, state, scan).Some?
  {
    match FindSpecial(buffer, state, scan)
    case None => Refill(|buffer|)
    case Some(loc) => if state.Normal? then SqlMove(buffer, scan, loc) else NestedMove(state, buffer, loc)
  }

  lemma SqlMoveAgrees(text: string, buffer: string, scan: nat, loc: nat, meta: nat)
    requires |buffer| <= |text| && buffer == text[..|buffer|]
    requires scan <= loc < |buffer| && Agrees(Normal, text, |buffer|, scan, meta)
    requires IsSqlSpecial(text[loc]) && forall i | scan <= i < loc :: !IsSqlSpecial(text[i])
    ensures !StateAt(text, loc).Done()
    ensures MoveAgrees(SqlMove(buffer, scan, loc), text, buffer, scan, loc, meta)
  {
    SqlNext(text, |buffer|, scan, loc);
    SkipPlain(Normal, text, |buffer|, scan, loc, meta);
    AgreesNotDone(Normal, text, |buffer|, loc, meta);
    var c := text[loc];
    assert c == buffer[loc];
    if c == '-' {
      DashAgrees(text, buffer, scan, loc, meta);
    } else if c == 'e' || c == 'E' {
      EscapeLetterAgrees(text, buffer, scan, loc, meta);
    } else if c == '.' || c == '\\' {
      BlankPrefix(buffer, text, loc);
      NotBlankHere(text, loc);
    }
  }

  lemma NotBlankHere(text: string, loc: nat)
    requires loc < |text| && !IsBlank(text[loc])
    ensures SqlAt(text, loc + 1) == Sql(false, IsSpace(text[loc]) || IsPunct(text[loc]), Nothing)
  {
    assert !AllBlank(text, loc + 1);
  }

  /** The second character of a pair that is none is taken as if the first had
      been an ordinary one. */
  lemma FalseAlarm(text: string, size: nat, p: nat, meta: nat)
    requires 0 < p < size <= |text| && !IsBlank(text[p - 1])
    requires || (StateAt(text, p) == Sql(false, true, Dash) && text[p - 1] == '-' && text[p] != '-')
             || (StateAt(text, p) == Sql(false, false, EscapeLetter) && (text[p - 1] == 'e' || text[p - 1] == 'E')
                 && text[p] != '\'' && text[p] != '"')
    ensures Agrees(Normal, text, size, p, meta)
  {
    NotBlankHere(text, p - 1);
  }

  lemma DashAgrees(text: string, buffer: string, scan: nat, loc: nat, meta: nat)
    requires |buffer| <= |text| && buffer == text[..|buffer|]
    requires scan <= loc < |buffer| && Agrees(Normal, text, |buffer|, loc, meta)
    requires text[loc] == '-' && StateAt(text, loc + 1) == Sql(false, true, Dash)
    ensures MoveAgrees(SqlMove(buffer, scan, loc), text, buffer, scan, loc, meta)
  {
    assert buffer[loc] == '-';
    if loc + 1 < |buffer| {
      assert text[loc + 1] == buffer[loc + 1];
      if text[loc + 1] == '-' {
        assert StateAt(text, loc + 2) == Comment;
      } else {
        FalseAlarm(text, |buffer|, loc + 1, loc);
      }
    }
  }

  lemma EscapeLetterAgrees(text: string, buffer: string, scan: nat, loc: nat, meta: nat)
    requires |buffer| <= |text| && buffer == text[..|buffer|]
    requires scan <= loc < |buffer| && Agrees(Normal, text, |buffer|, loc, meta)
    requires text[loc] == 'e' || text[loc] == 'E'
    requires StateAt(text, loc + 1) == Sql(false, false, if BoundaryAt(text, loc) then EscapeLetter else Nothing)
    ensures MoveAgrees(SqlMove(buffer, scan, loc), text, buffer, scan, loc, meta)
  {
    assert buffer[loc] == text[loc];
    assert loc > 0 ==> text[loc - 1] == buffer[loc - 1];
    if !BoundaryAt(text, loc) {
      NotBlankHere(text, loc);
    } else if loc + 1 < |buffer| {
      var c := text[loc + 1];
      assert c == buffer[loc + 1];
      if c == '\'' || c == '"' {
        assert StateAt(text, loc + 2) == Quoted(c, true, false);
      } else {
        FalseAlarm(text, |buffer|, loc + 1, loc);
      }
    }
  }

  lemma BlankPrefix(buffer: string, text: string, loc: nat)
    requires |buffer| <= |text| && buffer == text[..|buffer|] && loc < |buffer| && !IsBlank(text[loc])
    ensures loc == FirstNonBlank(buffer) <==> AllBlank(text, loc)
  {
    var f := FirstNonBlank(buffer);
    assert forall i | 0 <= i < |buffer| :: buffer[i] == text[i];
    if f < loc {
      assert !IsBlank(text[f]);
    }
  }

  lemma Closes(text: string, loc: nat)
    requires loc < |text|
    requires match StateAt(text, loc)
             case Quoted(quote, _, escaped) => !escaped && text[loc] == quote && (quote == '\'' || quote == '"')
             case Comment => text[loc] == '\n'
             case _ => false
    ensures StateAt(text, loc + 1) == SqlAt(text, loc + 1)
  {
    NotAllBlank(text, loc);
    assert !AllBlank(text, loc + 1);
  }

  lemma NestedMoveAgrees(state: LineState, text: string, buffer: string, scan: nat, loc: nat, meta: nat)
    requires |buffer| <= |text| && buffer == text[..|buffer|]
    requires !state.Normal? && !state.InCommand?
    requires scan <= loc < |buffer| && Agrees(state, text, |buffer|, scan, meta)
    requires IsSpecial(state, text[loc]) && forall i | scan <= i < loc :: !IsSpecial(state, text[i])
    ensures var move := NestedMove(state, buffer, loc);
            && move.Continue? && !move.state.InCommand? && loc < move.scan <= |buffer| + 1
            && (move.scan <= |buffer| ==> Agrees(move.state, text, |buffer|, move.scan, meta))
            && (move.scan > |buffer| ==>
                  && buffer[|buffer| - 1] != '\n' && !StateAt(text, |buffer|).Done()
                  && (state.SingleQuoteWithEscape? || state.DoubleQuoteWithEscape?) && move.state == state)
  {
    SkipPlain(state, text, |buffer|, scan, loc, meta);
    var c := text[loc];
    assert c == buffer[loc];
    if c != '\\' {
      Closes(text, loc);
    } else {
      var q := StateAt(text, loc);
      assert StateAt(text, loc + 1) == Quoted(q.quote, true, true);
      if loc + 2 <= |buffer| {
        assert StateAt(text, loc + 2) == Quoted(q.quote, true, false);
      }
    }
  }

  // ---------- What each turn of the scanner's loop keeps ----------

  /** The first special character of a leftover with a newline before its
      command is the one that begins the command. */
  lemma EarlyCommandIsFound(leftover: string, special: Option<nat>)
    requires NewlineBeforeCommand(leftover) && special == FindSpecial(leftover, Normal, 0)
    ensures special == Some(FirstNonBlank(leftover))
    ensures SqlMove(leftover, 0, FirstNonBlank(leftover)) == Continue(InCommand, 0)
  {
    var f := FirstNonBlank(leftover);
    assert IsSpecial(Normal, leftover[f]);
    assert forall i | 0 <= i < f :: !IsSpecial(Normal, leftover[i]);
  }

  /** The first newline after the scan position ends the command, if there is no
      newline before the command. */
  lemma CommandEndsAfterMeta(text: string, size: nat, p: nat, meta: nat, loc: nat)
    requires p <= loc < size <= |text| && Agrees(InCommand, text, size, p, meta)
    requires text[loc] == '\n' && forall i | p <= i < loc :: text[i] != '\n'
    requires forall i | p <= i < meta :: text[i] != '\n'
    ensures meta < loc && StateAt(text, loc).Command? && StateAt(text, loc + 1).CommandDone?
  {
    SkipPlain(InCommand, text, size, p, loc, meta);
  }

  lemma RunsOut(leftover: string, lines: seq<string>, text: string,
                buffer: string, remaining: seq<string>, state: LineState, scan: nat, meta: nat)
    requires text == leftover + Joined(lines)
    requires Scanning(leftover, lines, text, buffer, remaining, state, scan, meta)
    requires FindSpecial(buffer, state, scan).None?
    ensures !NewlineBeforeCommand(leftover)
    ensures remaining == [] ==> EndOfCommand(text) == None
    ensures remaining != [] ==>
              Scanning(leftover, lines, text, buffer + remaining[0], remaining[1..], state, |buffer|, meta)
  {
    if NewlineBeforeCommand(leftover) {
      NothingFoundIsNotEarly(leftover, state);
    }
    assert buffer == text[..|buffer|];
    if remaining == [] {
      assert buffer == text;
    }
    if scan <= |buffer| {
      SkipPlain(state, text, |buffer|, scan, |buffer|, meta);
      AgreesNotDone(state, text, |buffer|, |buffer|, meta);
      if remaining == [] {
        NoEndWithinText(text);
      } else {
        EndAfter(text, |buffer|);
        var line := remaining[0];
        assert buffer + line + Joined(remaining[1..]) == text;
        assert AllLines(remaining[1..]) && IsLine(line);
        assert forall i | |buffer| <= i < |buffer + line| - 1 :: (buffer + line)[i] == line[i - |buffer|];
        if EndOfCommand(text).Some? {
          var k := EndOfCommand(text).value;
          assert k > |buffer|;
          assert Advance(buffer, remaining, k) == Advance(buffer + line, remaining[1..], k);
        }
        AgreesInLongerBuffer(state, text, |buffer|, |buffer + line|, meta);
      }
    } else {
      NoEndWithinText(text);
    }
  }

  lemma NothingFoundIsNotEarly(leftover: string, state: LineState)
    requires NewlineBeforeCommand(leftover) && (state.Normal? || state.InCommand?)
    ensures FindSpecial(leftover, state, 0).Some?
  {
    if state.Normal? {
      assert IsSpecial(Normal, leftover[FirstNonBlank(leftover)]);
    } else {
      var i :| 0 <= i < FirstNonBlank(leftover) && leftover[i] == '\n';
      assert IsSpecial(InCommand, leftover[i]);
    }
  }

  lemma AgreesInLongerBuffer(state: LineState, text: string, size: nat, longer: nat, meta: nat)
    requires size <= longer <= |text| && Agrees(state, text, size, size, meta)
    ensures Agrees(state, text, longer, size, meta)
  {
  }

  /** A move within plain SQL, or into or out of a quote, comment or command. */
  lemma MovesOn(leftover: string, lines: seq<string>, text: string,
                buffer: string, remaining: seq<string>, state: LineState, scan: nat, meta: nat, loc: nat)
    requires text == leftover + Joined(lines)
    requires Scanning(leftover, lines, text, buffer, remaining, state, scan, meta)
    requires !state.InCommand? && FindSpecial(buffer, state, scan) == Some(loc)
    ensures var move := if state.Normal? then SqlMove(buffer, scan, loc) else NestedMove(state, buffer, loc);
            match move
            case Finish => state.Normal? && EndOfCommand(text) == Some(loc + 1) && StateAt(text, loc + 1).SqlDone?
                           && !NewlineBeforeCommand(leftover)
            case Continue(newState, newScan) =>
              && Scanning(leftover, lines, text, buffer, remaining, newState, newScan, FirstNonBlank(buffer))
              && (scan < newScan || (newScan == scan && newState.InCommand? && state.Normal?))
            case Refill(newScan) => remaining == [] && EndOfCommand(text) == None && !NewlineBeforeCommand(leftover)
  {
    assert buffer == text[..|buffer|];
    if state.Normal? {
      SqlMoveAgrees(text, buffer, scan, loc, meta);
      if NewlineBeforeCommand(leftover) {
        EarlyCommandIsFound(leftover, Some(loc));
      } else {
        var move := SqlMove(buffer, scan, loc);
        match move
        case Finish => EndIsFirstDone(text, loc + 1);
        case Continue(newState, newScan) =>
          if newState.InCommand? {
            NoNewlineBeforeMeta(leftover, lines, buffer, remaining, scan, loc);
          }
        case Refill(newScan) =>
          assert buffer == text;
          NoEndWithinText(text);
      }
    } else {
      NestedMoveAgrees(state, text, buffer, scan, loc, meta);
      if NestedMove(state, buffer, loc).scan > |buffer| {
        assert buffer == text;
      }
    }
  }

  lemma NoNewlineBeforeMeta(leftover: string, lines: seq<string>, buffer: string, remaining: seq<string>, scan: nat, loc: nat)
    requires !NewlineBeforeCommand(leftover)
    requires (buffer == leftover && remaining == lines) || forall i | scan <= i < |buffer| - 1 :: buffer[i] != '\n'
    requires scan <= loc < |buffer| && loc == FirstNonBlank(buffer) && (buffer[loc] == '.' || buffer[loc] == '\\')
    ensures forall i | scan <= i < loc :: buffer[i] != '\n'
  {
  }

  lemma ScanningStarts(leftover: string, lines: seq<string>)
    requires AllLines(lines)
    requires lines != [] && leftover != "" ==> leftover[|leftover| - 1] == '\n'
    ensures Scanning(leftover, lines, leftover + Joined(lines), leftover, lines, Normal, 0, 0)
  {
  }

  /** One turn of the loop. It ends the command where the automaton does, goes
      on in a matching state, or runs out of input. */
  lemma Turn(leftover: string, lines: seq<string>, text: string,
             buffer: string, remaining: seq<string>, state: LineState, scan: nat, meta: nat, move: Move, loc: nat)
    requires text == leftover + Joined(lines)
    requires Scanning(leftover, lines, text, buffer, remaining, state, scan, meta)
    requires state.InCommand? ==> FindSpecial(buffer, state, scan).None?
    requires move == NextMove(buffer, state, scan)
    requires FindSpecial(buffer, state, scan).Some? ==> loc == FindSpecial(buffer, state, scan).value
    ensures match move
            case Finish =>
              && loc < |buffer| && !NewlineBeforeCommand(leftover)
              && Outcome(buffer[..loc + 1], Cleared(buffer[loc + 1..]), remaining) == NextCommand(leftover, lines)
            case Continue(newState, newScan) =>
              && Scanning(leftover, lines, text, buffer, remaining, newState, newScan, FirstNonBlank(buffer))
              && (scan < newScan || (newScan == scan && newState.InCommand? && state.Normal?))
            case Refill(newScan) =>
              && !NewlineBeforeCommand(leftover)
              && (remaining == [] ==> Outcome("", leftover, []) == NextCommand(leftover, lines))
              && (remaining != [] ==>
                    && IsLine(remaining[0])
                    && Scanning(leftover, lines, text, buffer + remaining[0], remaining[1..], state, newScan, meta))
  {
    match FindSpecial(buffer, state, scan)
    case None => RunsOut(leftover, lines, text, buffer, remaining, state, scan, meta);
    case Some(_) =>
      MovesOn(leftover, lines, text, buffer, remaining, state, scan, meta, loc);
      if move.Finish? {
        assert buffer[..loc + 1] == buffer[0..loc + 1];
        FinishIsReference(leftover, lines, text, buffer, remaining, loc + 1, 0, buffer[..loc + 1]);
      }
  }

  /** The newline that ends a dot or backslash command. */
  lemma CommandFinishes(leftover: string, lines: seq<string>, text: string,
                        buffer: string, remaining: seq<string>, scan: nat, meta: nat, loc: nat)
    requires text == leftover + Joined(lines)
    requires Scanning(leftover, lines, text, buffer, remaining, InCommand, scan, meta)
    requires FindSpecial(buffer, InCommand, scan) == Some(loc)
    ensures scan <= |buffer| && meta == FirstNonBlank(buffer) == FirstNonBlank(text)
    ensures !NewlineBeforeCommand(leftover) ==>
              meta <= loc && EndOfCommand(text) == Some(loc + 1) && StateAt(text, loc + 1).CommandDone?
    ensures NewlineBeforeCommand(leftover) ==>
              && loc < meta && !AllSpace(buffer[loc + 1..])
              && (EndOfCommand(text).Some? ==> EndOfCommand(text).value > loc + 1)
  {
    assert buffer == text[..|buffer|];
    assert forall i | 0 <= i < |buffer| :: buffer[i] == text[i];
    BlankPrefix(buffer, text, meta);
    BlankPrefix(text, text, meta);
    if !NewlineBeforeCommand(leftover) {
      CommandEndsAfterMeta(text, |buffer|, scan, meta, loc);
      EndIsFirstDone(text, loc + 1);
    } else {
      var i :| 0 <= i < meta && buffer[i] == '\n';
      assert IsSpecial(InCommand, buffer[i]);
      assert buffer[loc + 1..][meta - loc - 1] == buffer[meta];
      SkipSql(text, 0, loc + 1);
      EndAfter(text, loc + 1);
    }
  }

  lemma {:induction false} AdvanceShrinks(buffer: string, lines: seq<string>, k: nat)
    requires k <= |buffer| + |Joined(lines)|
    ensures var (rest, remaining) := Advance(buffer, lines, k);
            |rest| + |Joined(remaining)| <= |buffer| + |Joined(lines)| - k
    decreases |lines|
  {
    if k > |buffer| && lines != [] {
      AdvanceShrinks(buffer + lines[0], lines[1..], k);
    }
  }

  lemma FinishIsReference(leftover: string, lines: seq<string>, text: string,
                          buffer: string, remaining: seq<string>, k: nat, from: nat, command: string)
    requires text == leftover + Joined(lines) == buffer + Joined(remaining)
    requires from <= k <= |buffer| && EndOfCommand(text) == Some(k)
    requires Advance(buffer, remaining, k) == Advance(leftover, lines, k)
    requires if StateAt(text, k).CommandDone? then from == FirstNonBlank(text) else from == 0
    requires command == buffer[from..k]
    ensures Outcome(command, Cleared(buffer[k..]), remaining) == NextCommand(leftover, lines)
  {
    assert buffer[from..k] == text[from..k];
  }

  /** The call that goes wrong leaves more behind than the reference does. */
  lemma EarlyCommandDiffers(leftover: string, lines: seq<string>, loc: nat, command: string)
    requires NewlineBeforeCommand(leftover) && loc < |leftover|
    requires !AllSpace(leftover[loc + 1..])
    requires var end := EndOfCommand(leftover + Joined(lines)); end.Some? ==> end.value > loc + 1
    ensures Outcome(command, Cleared(leftover[loc + 1..]), lines) != NextCommand(leftover, lines)
  {
    var end := EndOfCommand(leftover + Joined(lines));
    if end.Some? {
      AdvanceShrinks(leftover, lines, end.value);
    }
  }

  /** The newline is the first of the leftover, and the command follows it. */
  lemma EarlyCommandOutcome(leftover: string, lines: seq<string>, loc: nat, command: string)
    requires NewlineBeforeCommand(leftover) && FindSpecial(leftover, InCommand, 0) == Some(loc)
    requires loc < FirstNonBlank(leftover) && !AllSpace(leftover[loc + 1..])
    requires command == if loc + 1 == FirstNonBlank(leftover) then "" else leftover[FirstNonBlank(leftover)..]
    ensures Outcome(command, Cleared(leftover[loc + 1..]), lines) == HiddenOutcome(leftover, lines)
  {
    assert forall j | 0 <= j < loc :: !IsSpecial(InCommand, leftover[j]);
    LineEndsAt(leftover, loc);
  }

  lemma BlankThenDot(leftover: string, f: nat)
    requires |leftover| == f + 3 && AllBlank(leftover, f)
    requires leftover[f] == '.' && leftover[f + 1] == 'x' && leftover[f + 2] == '\n'
    ensures FirstNonBlank(leftover) == f
    ensures NextCommand(leftover, []) == Outcome(".x\n", "", [])
  {
    FirstNonBlankIs(leftover, f);
    SkipSql(leftover, 0, f);
    assert StateAt(leftover, f + 1) == Command && StateAt(leftover, f + 2) == Command;
    assert StateAt(leftover, f + 3) == CommandDone;
    EndIsFirstDone(leftover, f + 3);
    assert leftover + Joined([]) == leftover;
    assert leftover[f..f + 3] == ".x\n" && leftover[f + 3..] == "";
  }

  /** An empty line before a dot command, in one leftover: the reference finds
      the command, but a call returns the empty string of the end of input. */
  lemma HiddenNewlineExample()
    ensures var leftover := "\n.x\n";
            && NewlineBeforeCommand(leftover)
            && NextCommand(leftover, []) == Outcome(".x\n", "", [])
            && HiddenOutcome(leftover, []) == Outcome("", ".x\n", [])
  {
    var leftover := "\n.x\n";
    BlankThenDot(leftover, 1);
    assert leftover[0] == '\n' && leftover[1..] == ".x\n";
    LineEndsAt(leftover, 0);
  }

  /** With a blank after the newline a call returns the command, but leaves it
      over, and the next call returns it once more. */
  lemma CommandTwiceExample()
    ensures var leftover, next := "\n .x\n", " .x\n";
            && NewlineBeforeCommand(leftover)
            && NextCommand(leftover, []) == Outcome(".x\n", "", [])
            && HiddenOutcome(leftover, []) == Outcome(".x\n", next, [])
            && !NewlineBeforeCommand(next)
            && NextCommand(next, []) == Outcome(".x\n", "", [])
  {
    var leftover, next := "\n .x\n", " .x\n";
    BlankThenDot(leftover, 2);
    BlankThenDot(next, 1);
    assert leftover[0] == '\n' && leftover[1..] == next && leftover[2..] == ".x\n";
    LineEndsAt(leftover, 0);
  }

  // ---------- A whole session ----------

  predicate IsLineOrEmpty(s: string) {
    s == "" || IsLine(s)
  }

  lemma {:induction false} AdvanceIsRest(buffer: string, lines: seq<string>, k: nat)
    requires AllLines(lines) && 0 < k <= |buffer| + |Joined(lines)|
    requires buffer != "" ==> buffer[|buffer| - 1] == '\n'
    requires forall i | k - 1 <= i < |buffer| - 1 :: buffer[i] != '\n'
    ensures var (rest, remaining) := Advance(buffer, lines, k);
            && IsLineOrEmpty(rest) && AllLines(remaining)
            && rest + Joined(remaining) == Rest(buffer + Joined(lines), k)
    decreases |lines|
  {
    if k <= |buffer| {
      RestOfLine(buffer, Joined(lines), k);
    } else {
      var line, longer := lines[0], buffer + lines[0];
      assert IsLine(line) && longer + Joined(lines[1..]) == buffer + Joined(lines);
      assert forall i | k - 1 <= i < |longer| - 1 :: longer[i] == line[i - |buffer|];
      AdvanceIsRest(longer, lines[1..], k);
    }
  }

  lemma RestOfLine(buffer: string, after: string, k: nat)
    requires 0 < k <= |buffer| && buffer[|buffer| - 1] == '\n'
    requires forall i | k - 1 <= i < |buffer| - 1 :: buffer[i] != '\n'
    ensures IsLineOrEmpty(Cleared(buffer[k..]))
    ensures Cleared(buffer[k..]) + after == Rest(buffer + after, k)
  {
    var line := buffer[k..];
    assert (buffer + after)[k..] == line + after;
    if k < |buffer| {
      assert IsLine(line);
      LineEndsAt(line + after, |line| - 1);
      assert (line + after)[..|line|] == line;
      assert (line + after)[|line|..] == after;
    } else {
      assert "" + after == after;
    }
  }

  lemma {:induction false} JoinedIsLines(buffer: string, lines: seq<string>)
    requires IsLines(buffer) && AllLines(lines)
    ensures IsLines(buffer + Joined(lines))
    decreases |lines|
  {
    if lines == [] {
      assert buffer + Joined(lines) == buffer;
    } else {
      assert IsLine(lines[0]);
      JoinedIsLines(buffer + lines[0], lines[1..]);
      assert buffer + Joined(lines) == buffer + lines[0] + Joined(lines[1..]);
    }
  }

  lemma ShownIsNotEmpty(text: string, k: nat)
    requires EndOfCommand(text) == Some(k)
    ensures k > 0 && Shown(text, k) != ""
  {
    if StateAt(text, k).CommandDone? && FirstNonBlank(text) == k {
      SkipSql(text, 0, k);
    }
  }

  /** One call on lines of input takes the first command off the text. */
  lemma CallTakesOneCommand(leftover: string, lines: seq<string>)
    requires IsLineOrEmpty(leftover) && AllLines(lines)
    ensures !NewlineBeforeCommand(leftover)
    ensures var text, next := leftover + Joined(lines), NextCommand(leftover, lines);
            if next.command == "" then SplitCommands(text) == []
            else
              && IsLineOrEmpty(next.leftover) && AllLines(next.lines)
              && |next.leftover| + |Joined(next.lines)| < |text|
              && SplitCommands(text) == [next.command] + SplitCommands(next.leftover + Joined(next.lines))
  {
    var text := leftover + Joined(lines);
    if EndOfCommand(text).Some? {
      var k := EndOfCommand(text).value;
      ShownIsNotEmpty(text, k);
      AdvanceIsRest(leftover, lines, k);
    }
  }

  lemma SessionsAgree(leftover: string, lines: seq<string>)
    requires IsLineOrEmpty(leftover) && AllLines(lines)
    ensures var text := leftover + Joined(lines);
            SameUpToSpace(SplitCommands(text), PlainSplit(text)) <==> !SomeObstacle(text)
  {
    JoinedIsLines(leftover, lines);
    SplitsAgree(leftover + Joined(lines));
  }

  class LineReader {
    var leftover: string
    var lines: seq<string>  // what the input source has still to give

    method GetLineInternal() returns (line: string)
      modifies this`lines
      ensures old(lines) == [] ==> line == "" && lines == []
      ensures old(lines) != [] ==> line == old(lines)[0] && lines == old(lines)[1..]
    {
      if lines == [] {
        return "";
      }
      line, lines := lines[0], lines[1..];
    }

    method GetMoreInput(buffer: string, continuing: bool) returns (more: bool, grown: string, stillContinuing: bool)
      requires AllLines(lines)
      modifies this`lines
      ensures more <==> old(lines) != []
      ensures !more ==> grown == buffer && lines == [] && stillContinuing == continuing
      ensures more ==> grown == buffer + old(lines)[0] && lines == old(lines)[1..]
      ensures more ==> stillContinuing == (continuing || !AllSpace(old(lines)[0]))
    {
      var nextLine := GetLineInternal();
      if nextLine == "" {
        return false, buffer, continuing;
      }
      return true, buffer + nextLine, continuing || !AllSpace(nextLine);
    }

    /** Returns the dot or backslash command that the newline at `loc` ends. The
        length is computed in 64 bits and wraps if the newline comes first. */
    method TakeCommand(buffer: string, loc: nat, ghost entryLines: seq<string>, ghost scan: nat, ghost meta: nat)
      returns (command: string)
      requires Scanning(leftover, entryLines, leftover + Joined(entryLines), buffer, lines, InCommand, scan, meta)
      requires FindSpecial(buffer, InCommand, scan) == Some(loc)
      requires |leftover| + |Joined(entryLines)| < TWO_TO_64
      modifies this`leftover
      ensures Outcome(command, leftover, lines) == NextCommand(old(leftover), entryLines)
              <==> !NewlineBeforeCommand(old(leftover))
      ensures NewlineBeforeCommand(old(leftover)) ==>
                Outcome(command, leftover, lines) == HiddenOutcome(old(leftover), entryLines)
    {
      ghost var text := leftover + Joined(entryLines);
      CommandFinishes(leftover, entryLines, text, buffer, lines, scan, meta, loc);
      var start := FirstNonBlank(buffer);
      command := Substr(buffer, start, if start <= loc + 1 then loc + 1 - start else TWO_TO_64 - (start - loc - 1));
      if NewlineBeforeCommand(leftover) {
        EarlyCommandOutcome(leftover, entryLines, loc, command);
        EarlyCommandDiffers(leftover, entryLines, loc, command);
      } else {
        FinishIsReference(leftover, entryLines, text, buffer, lines, loc + 1, start, command);
      }
      leftover := Cleared(buffer[loc + 1..]);
    }

    /** Fetching input in the middle of a call. */
    method Refilled(buffer: string, continuing: bool, ghost entry: string, ghost entryLines: seq<string>, ghost text: string,
                    ghost state: LineState, ghost scan: nat, ghost meta: nat)
      returns (more: bool, grown: string, stillContinuing: bool)
      requires lines != [] ==>
                 Scanning(entry, entryLines, text, buffer + lines[0], lines[1..], state, scan, meta) && IsLine(lines[0])
      modifies this`lines
      ensures more ==> |lines| < |old(lines)| && Scanning(entry, entryLines, text, grown, lines, state, scan, meta)
      ensures !more ==> old(lines) == lines == []
    {
      more, grown, stillContinuing := GetMoreInput(buffer, continuing);
    }

    /** One turn of the scanning loop: it returns the command, or leaves the
        scanner further on in the text, in a later line or in another state. */
    method ScanTurn(buffer: string, continuing: bool, state: LineState, scan: nat,
                    ghost entryLines: seq<string>, ghost meta: nat)
      returns (command: Option<string>, grown: string, stillContinuing: bool, newState: LineState, newScan: nat,
               ghost newMeta: nat)
      requires Scanning(leftover, entryLines, leftover + Joined(entryLines), buffer, lines, state, scan, meta)
      requires state.InCommand? ==> FindSpecial(buffer, state, scan).None?
      modifies this
      ensures command.Some? ==>
                && !NewlineBeforeCommand(old(leftover))
                && Outcome(command.value, leftover, lines) == NextCommand(old(leftover), entryLines)
      ensures command.None? ==>
                && leftover == old(leftover)
                && Scanning(leftover, entryLines, leftover + Joined(entryLines), grown, lines, newState, newScan, newMeta)
                && (|lines| < |old(lines)|
                    || (lines == old(lines) && grown == buffer
                        && (scan < newScan || (newScan == scan && newState.InCommand? && state.Normal?))))
    {
      ghost var text := leftover + Joined(entryLines);
      grown, stillContinuing, newState, newScan, newMeta := buffer, continuing, state, scan, meta;
      var special := FindSpecial(buffer, state, scan);
      var loc := if special.Some? then special.value else 0;
      var move := NextMove(buffer, state, scan);
      Turn(leftover, entryLines, text, buffer, lines, state, scan, meta, move, loc);
      command := None;
      match move {
        case Finish =>
          leftover := Cleared(buffer[loc + 1..]);
          command := Some(buffer[..loc + 1]);
        case Continue(nextState, nextScan) =>
          newState, newScan, newMeta := nextState, nextScan, FirstNonBlank(buffer);
        case Refill(nextScan) =>
          newScan := nextScan;
          var more;
          more, grown, stillContinuing := Refilled(buffer, continuing, leftover, entryLines, text, state, nextScan, meta);
          if !more {
            command := Some("");
          }
      }
    }

    /** Returns the first command of what is left over from the last call and the
        lines still to come, and keeps what follows it. This is what the
        automaton says exactly if the leftover does not hide a newline before a
        dot or backslash command; otherwise it is the line before the command. */
    method GetNextCommand() returns (command: string)
      requires AllLines(lines)
      requires lines != [] && leftover != "" ==> leftover[|leftover| - 1] == '\n'
      requires |leftover| + |Joined(lines)| < TWO_TO_64
      modifies this
      ensures Outcome(command, leftover, lines) == NextCommand(old(leftover), old(lines))
              <==> !NewlineBeforeCommand(old(leftover))
      ensures NewlineBeforeCommand(old(leftover)) ==>
                Outcome(command, leftover, lines) == HiddenOutcome(old(leftover), old(lines))
    {
      var buffer, continuing := leftover, false;
      var state, scan: nat := Normal, 0;
      ghost var meta: nat := 0;
      ScanningStarts(leftover, lines);
      while true
        invariant leftover == old(leftover)
        invariant Scanning(leftover, old(lines), leftover + Joined(old(lines)), buffer, lines, state, scan, meta)
        decreases |lines|, |buffer| + 1 - scan, if state.Normal? then 1 else 0
      {
        if state.InCommand? && FindSpecial(buffer, state, scan).Some? {
          command := TakeCommand(buffer, FindSpecial(buffer, state, scan).value, old(lines), scan, meta);
          return;
        }
        var found;
        found, buffer, continuing, state, scan, meta := ScanTurn(buffer, continuing, state, scan, old(lines), meta);
        if found.Some? {
          return found.value;
        }
      }
    }

    /** Calling until the input ends returns the commands of the text. They are
        those of the plain automaton exactly if no forgotten white space stood in
        the way of one. */
    method ReadSession() returns (commands: seq<string>)
      requires IsLineOrEmpty(leftover) && AllLines(lines)
      requires |leftover| + |Joined(lines)| < TWO_TO_64
      modifies this
      ensures commands == SplitCommands(old(leftover) + Joined(old(lines)))
      ensures var text := old(leftover) + Joined(old(lines));
              SameUpToSpace(commands, PlainSplit(text)) <==> !SomeObstacle(text)
    {
      commands := [];
      ghost var all, rest := SplitCommands(leftover + Joined(lines)), SplitCommands(leftover + Joined(lines));
      while true
        invariant IsLineOrEmpty(leftover) && AllLines(lines)
        invariant |leftover| + |Joined(lines)| < TWO_TO_64
        invariant rest == SplitCommands(leftover + Joined(lines)) && commands + rest == all
        decreases |leftover| + |Joined(lines)|
      {
        CallTakesOneCommand(leftover, lines);
        var command := GetNextCommand();
        if command == "" {
          SessionsAgree(old(leftover), old(lines));
          return;
        }
        commands := commands + [command];
        rest := rest[1..];
      }
    }
  }
}
