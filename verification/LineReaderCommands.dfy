/** What a call of the line reader returns, by the grammar of commands alone. */
module LineReaderCommands {

  import opened Wrappers
  import opened CommandAutomaton
  import opened CommandSplit
  import opened CommandGrammar
  import opened LineReader

  /** The first command of a text, from its first character that counts. */
  ghost predicate IsFirstCommand(text: string, k: nat, command: string) {
    && 0 < k <= |text| && FirstNonBlank(text) < k && IsCommand(text[..k])
    && command == if text[k - 1] == ';' then text[..k] else text[FirstNonBlank(text)..k]
  }

  /** The reference returns the one beginning of the text that is a command, without
      the blanks before a dot or backslash, or the empty string if there is none. */
  lemma NextCommandIsFirst(leftover: string, lines: seq<string>, text: string)
    requires text == leftover + Joined(lines)
    ensures NextCommand(leftover, lines).command == "" <==> forall k: nat | k <= |text| :: !IsCommand(text[..k])
    ensures NextCommand(leftover, lines).command != "" ==>
              exists k :: IsFirstCommand(text, k, NextCommand(leftover, lines).command)
  {
    forall k: nat | k <= |text| ensures IsCommand(text[..k]) <==> EndOfCommand(text) == Some(k) {
      EndIffCommand(text, k);
    }
    if EndOfCommand(text).Some? {
      var k := EndOfCommand(text).value;
      ShownIs(text, k);
      assert IsFirstCommand(text, k, Shown(text, k));
      assert IsCommand(text[..k]);
    }
  }
}
