/** Where a command ends in the text a user types, decided one character at a time.
    This is the reference for the line reader, which jumps over its buffer instead. */
module CommandAutomaton {

  import opened Wrappers

  predicate IsSpace(c: char) {
    c == ' ' || c == '\t' || c == '\n' || c == '\r' || c == '\U{0B}' || c == '\U{0C}'
  }

  predicate IsPunct(c: char) {
    '!' <= c <= '/' || ':' <= c <= '@' || '[' <= c <= '`' || '{' <= c <= '~'
  }

  /** The characters skipped when looking for the start of a command. */
  predicate IsBlank(c: char) {
    c == ' ' || c == '\t' || c == '\r' || c == '\n'
  }

  /** The classes of the C locale, and the string of blanks, character by character. */
  lemma CharacterClasses(c: char)
    ensures IsPunct(c) <==> c in "!\"#$%&'()*+,-./" || c in ":;<=>?@" || c in "[\\]^_`" || c in "{|}~"
    ensures IsSpace(c) <==> c in " \t\n\U{0B}\U{0C}\r"
    ensures IsBlank(c) <==> c in " \t\r\n"
  {
  }

  /** A character that may turn out to be the first of a pair. */
  datatype Pending = Nothing | Dash | EscapeLetter

  datatype Scan =
    | Sql(blank: bool, boundary: bool, pending: Pending)  // only blanks so far; a word may start here
    | Quoted(quote: char, escapes: bool, escaped: bool)
    | Comment
    | Command
    | SqlDone
    | CommandDone
  {
    predicate Done() {
      SqlDone? || CommandDone?
    }
  }

  const START := Sql(true, true, Nothing)

  function StepSql(blank: bool, boundary: bool, c: char): Scan {
    match c
    case ';' => SqlDone
    case '\'' => Quoted('\'', false, false)
    case '"' => Quoted('"', false, false)
    case '-' => Sql(false, true, Dash)
    case 'e' => Sql(false, false, if boundary then EscapeLetter else Nothing)
    case 'E' => Sql(false, false, if boundary then EscapeLetter else Nothing)
    case '.' => if blank then Command else Sql(false, true, Nothing)
    case '\\' => if blank then Command else Sql(false, true, Nothing)
    case _ => Sql(blank && IsBlank(c), IsSpace(c) || IsPunct(c), Nothing)
  }

  function Step(q: Scan, c: char): Scan {
    match q
    case Sql(blank, boundary, Nothing) => StepSql(blank, boundary, c)
    case Sql(_, _, Dash) => if c == '-' then Comment else StepSql(false, true, c)
    case Sql(_, _, EscapeLetter) =>
      if c == '\'' || c == '"' then Quoted(c, true, false) else StepSql(false, false, c)
    case Quoted(quote, escapes, true) => Quoted(quote, escapes, false)
    case Quoted(quote, escapes, false) =>
      if c == quote then Sql(false, true, Nothing)
      else Quoted(quote, escapes, escapes && c == '\\')
    case Comment => if c == '\n' then Sql(false, true, Nothing) else Comment
    case Command => if c == '\n' then CommandDone else Command
    case SqlDone => SqlDone
    case CommandDone => CommandDone
  }

  /** The automaton after the first `p` characters of `text`. */
  function StateAt(text: string, p: nat): Scan
    requires p <= |text|
  {
    if p == 0 then START else Step(StateAt(text, p - 1), text[p - 1])
  }

  /** The least position at or after `p` where the first command is complete. */
  function EndFrom(text: string, p: nat): (r: Option<nat>)
    requires p <= |text|
    ensures r.Some? ==> p <= r.value <= |text| && StateAt(text, r.value).Done()
    decreases |text| - p
  {
    if StateAt(text, p).Done() then Some(p)
    else if p == |text| then None
    else EndFrom(text, p + 1)
  }

  function EndOfCommand(text: string): Option<nat> {
    EndFrom(text, 0)
  }

  lemma {:induction false} EndAfter(text: string, p: nat)
    requires p <= |text| && !StateAt(text, p).Done()
    ensures EndOfCommand(text) == EndFrom(text, p)
  {
    if p > 0 {
      EndAfter(text, p - 1);
    }
  }

  /** The command is complete exactly where the automaton first says so. */
  lemma EndIsFirstDone(text: string, k: nat)
    requires 0 < k <= |text| && StateAt(text, k).Done() && !StateAt(text, k - 1).Done()
    ensures EndOfCommand(text) == Some(k)
  {
    EndAfter(text, k - 1);
  }

  /** Before that it says so nowhere. */
  lemma {:induction false} NotDoneBefore(text: string, p: nat)
    requires p <= |text|
    ensures EndFrom(text, p) == None ==> !StateAt(text, |text|).Done()
    ensures var r := EndFrom(text, p); r.Some? && p < r.value ==> !StateAt(text, r.value - 1).Done()
    decreases |text| - p
  {
    if p < |text| && !StateAt(text, p).Done() {
      NotDoneBefore(text, p + 1);
    }
  }

  lemma NoEndWithinText(text: string)
    requires !StateAt(text, |text|).Done()
    ensures EndOfCommand(text) == None
  {
    EndAfter(text, |text|);
  }

  // ---------- Stretches of the text without a special character ----------

  predicate AllBlank(text: string, p: nat)
    requires p <= |text|
  {
    forall i | 0 <= i < p :: IsBlank(text[i])
  }

  predicate BoundaryAt(text: string, p: nat)
    requires p <= |text|
  {
    p == 0 || IsSpace(text[p - 1]) || IsPunct(text[p - 1])
  }

  /** The automaton in plain SQL, as a function of the text before it. */
  function SqlAt(text: string, p: nat): Scan
    requires p <= |text|
  {
    Sql(AllBlank(text, p), BoundaryAt(text, p), Nothing)
  }

  /** The characters that can take the automaton out of plain SQL. */
  predicate IsSqlSpecial(c: char) {
    c == ';' || c == '\'' || c == '"' || c == '-' || c == 'e' || c == 'E' || c == '.' || c == '\\'
  }

  lemma {:induction false} SkipSql(text: string, p: nat, k: nat)
    requires p <= k <= |text| && StateAt(text, p) == SqlAt(text, p)
    requires forall i | p <= i < k :: !IsSqlSpecial(text[i])
    ensures StateAt(text, k) == SqlAt(text, k)
  {
    if p < k {
      SkipSql(text, p, k - 1);
    }
  }

  /** Blanks alone never leave plain SQL. */
  lemma NotAllBlank(text: string, p: nat)
    requires p <= |text| && !StateAt(text, p).Sql?
    ensures !AllBlank(text, p)
  {
    if AllBlank(text, p) {
      SkipSql(text, 0, p);
    }
  }

  lemma {:induction false} SkipQuoted(text: string, p: nat, k: nat, quote: char, escapes: bool)
    requires p <= k <= |text| && StateAt(text, p) == Quoted(quote, escapes, false)
    requires forall i | p <= i < k :: text[i] != quote && (escapes ==> text[i] != '\\')
    ensures StateAt(text, k) == Quoted(quote, escapes, false)
  {
    if p < k {
      SkipQuoted(text, p, k - 1, quote, escapes);
    }
  }

  lemma {:induction false} SkipToNewline(text: string, p: nat, k: nat)
    requires p <= k <= |text| && (StateAt(text, p).Comment? || StateAt(text, p).Command?)
    requires forall i | p <= i < k :: text[i] != '\n'
    ensures StateAt(text, k) == StateAt(text, p)
  {
    if p < k {
      SkipToNewline(text, p, k - 1);
    }
  }
}
