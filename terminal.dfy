/**
  The terminal component (src/components/Terminal.tsx): the text being typed,
  the transcript of lines, its own history cursor `historyIndex`, and the
  command history of `useTerminalHistory`, updated by the submit and key handlers.
*/
module TerminalController {
  import opened Wrappers
  import opened Text
  import opened TerminalHistory
  import opened Commands

  datatype LineType = InputLine | OutputLine | ErrorLine

  /** One transcript entry `{ type, content, prompt? }`. */
  datatype Line = Line(kind: LineType, content: string, prompt: Option<string>)

  /** The prompt recorded with every echoed input line. */
  const Prompt: string := "visitor@cybersec-portfolio:~$"

  /** The echo of a submitted line: an `input` line with the text as submitted and the prompt. */
  function Echo(trimmed: string): (l: Line)
    ensures l.kind == InputLine && l.content == trimmed && l.prompt == Some(Prompt)
  {
    Line(InputLine, trimmed, Some(Prompt))
  }

  predicate NoErrorLines(lines: seq<Line>) {
    forall k :: 0 <= k < |lines| ==> lines[k].kind != ErrorLine
  }

  /**
    The transcript after submitting `trimmed` with outcome `o`: the echo is appended,
    then `clear` empties everything, then a non-empty reply is appended.
  */
  function Transcript(prev: seq<Line>, trimmed: string, o: Outcome): (r: seq<Line>)
    ensures |r| == (if o.clearsTranscript then 0 else |prev| + 1) + (if o.text == "" then 0 else 1)
    ensures !o.clearsTranscript ==> prev + [Echo(trimmed)] <= r
    ensures o.text != "" ==> r[|r| - 1] == Line(OutputLine, o.text, None)
    ensures NoErrorLines(prev) ==> NoErrorLines(r)
  {
    var echoed := prev + [Echo(trimmed)];
    var kept := if o.clearsTranscript then [] else echoed;
    if o.text != "" then kept + [Line(OutputLine, o.text, None)] else kept
  }

  /** Submitting `clear`, in any case and with any padding, leaves the transcript empty, without even its echo. */
  lemma SubmitClear(replies: Replies, prev: seq<Line>, trimmed: string)
    requires LookupKey(trimmed) == KeyOf(Clear)
    ensures Transcript(prev, trimmed, ExecuteCommand(replies, trimmed)) == []
  {
  }

  /** A line naming no command adds its echo and then the not-found reply, as an output line. */
  lemma SubmitUnknown(replies: Replies, prev: seq<Line>, trimmed: string)
    requires IsTrimmed(trimmed) && trimmed != []
    requires forall n: Name :: Lower(trimmed) != KeyOf(n)
    ensures Transcript(prev, trimmed, ExecuteCommand(replies, trimmed)) ==
      prev + [Echo(trimmed), Line(OutputLine, NotFound(Lower(trimmed)), None)]
  {
    UnknownOutcome(replies, trimmed);
    var o := Outcome(NotFound(Lower(trimmed)), false);
    assert o.text != "" by { assert |NotFound(Lower(trimmed))| > 0; }
    assert Transcript(prev, trimmed, o) == prev + [Echo(trimmed)] + [Line(OutputLine, o.text, None)];
  }

  /** The outcome of a trimmed line naming no command: its not-found text, no clearing. */
  lemma UnknownOutcome(replies: Replies, trimmed: string)
    requires IsTrimmed(trimmed) && trimmed != []
    requires forall n: Name :: Lower(trimmed) != KeyOf(n)
    ensures ExecuteCommand(replies, trimmed) == Outcome(NotFound(Lower(trimmed)), false)
  {
    TrimTrimmed(trimmed);
    assert LookupKey(trimmed) == Lower(trimmed) != "";
  }

  /** A text command adds its echo and then its reply, when that reply is not empty. */
  lemma SubmitText(replies: Replies, prev: seq<Line>, trimmed: string, n: Name)
    requires n != Clear && LookupKey(trimmed) == KeyOf(n)
    ensures Transcript(prev, trimmed, ExecuteCommand(replies, trimmed)) ==
      prev + [Echo(trimmed)] + (if replies(n) == "" then [] else [Line(OutputLine, replies(n), None)])
  {
  }

  /** The keys the terminal reacts to; any other key is left to the input field. */
  datatype Key = ArrowUp | ArrowDown | Tab | OtherKey

  class Terminal {
    var input: string
    var lines: seq<Line>
    var historyIndex: int
    const commandHistory: History
    const replies: Replies

    ghost predicate Valid()
      reads this, commandHistory
    {
      commandHistory.Valid() && InRange(historyIndex, |commandHistory.history|)
    }

    constructor (replies: Replies)
      ensures Valid() && fresh(commandHistory)
      ensures input == "" && lines == [] && historyIndex == -1 && this.replies == replies
      ensures commandHistory.history == [] && commandHistory.currentIndex == -1
    {
      input := "";
      lines := [];
      historyIndex := -1;
      commandHistory := new History();
      this.replies := replies;
    }

    /** The input field's `onChange`: the visitor edits the text. */
    method HandleChange(value: string)
      requires Valid()
      modifies this
      ensures Valid()
      ensures input == value && lines == old(lines) && historyIndex == old(historyIndex)
    {
      input := value;
    }

    /** `handleSubmit`: Enter. */
    method HandleSubmit()
      requires Valid()
      modifies this, commandHistory
      ensures Valid()
      ensures AllSpace(old(input)) ==>
        input == old(input) && lines == old(lines) && historyIndex == old(historyIndex) &&
        commandHistory.history == old(commandHistory.history) &&
        commandHistory.currentIndex == old(commandHistory.currentIndex)
      ensures !AllSpace(old(input)) ==>
        var trimmed := Trim(old(input));
        commandHistory.history == Added(old(commandHistory.history), trimmed) &&
        commandHistory.currentIndex == -1 &&
        historyIndex == -1 &&
        lines == Transcript(old(lines), trimmed, ExecuteCommand(replies, trimmed)) &&
        input == ""
    {
      if Trim(input) == "" {
        return;
      }
      var trimmedInput := Trim(input);
      commandHistory.AddToHistory(trimmedInput);
      commandHistory.ResetNavigation();
      historyIndex := -1;

      lines := lines + [Echo(trimmedInput)];

      var output := ExecuteCommand(replies, trimmedInput);
      if output.clearsTranscript {
        lines := [];
      }
      if output.text != "" {
        lines := lines + [Line(OutputLine, output.text, None)];
      }

      input := "";
    }

    /** `handleKeyDown`: history recall with the arrow keys and completion with Tab. */
    method HandleKeyDown(key: Key)
      requires Valid()
      modifies this
      ensures Valid()
      ensures lines == old(lines)
      ensures key == ArrowUp && |commandHistory.history| == 0 ==>
        input == old(input) && historyIndex == old(historyIndex)
      ensures key == ArrowUp || key == ArrowDown ==>
        historyIndex == Navigated(old(historyIndex), |commandHistory.history|, if key == ArrowUp then Up else Down)
      ensures (key == ArrowUp && |commandHistory.history| > 0) || key == ArrowDown ==>
        input == CommandAt(commandHistory.history, historyIndex)
      ensures key == Tab ==> input == Complete(old(input)) && historyIndex == old(historyIndex)
      ensures key == OtherKey ==> input == old(input) && historyIndex == old(historyIndex)
    {
      var history := commandHistory.history;
      match key
      case ArrowUp =>
        var newIndex := if historyIndex + 1 < |history| - 1 then historyIndex + 1 else |history| - 1;
        if newIndex >= 0 {
          historyIndex := newIndex;
          input := history[|history| - 1 - newIndex];
        }
      case ArrowDown =>
        var newIndex := if historyIndex - 1 > -1 then historyIndex - 1 else -1;
        historyIndex := newIndex;
        if newIndex == -1 {
          input := "";
        } else {
          input := history[|history| - 1 - newIndex];
        }
      case Tab =>
        var matches := Matching(Registry, Lower(input));
        if |matches| == 1 {
          input := KeyOf(matches[0]);
        }
      case OtherKey =>
    }
  }

  /**
    From a fresh cursor, `n` ArrowUp presses followed by `n` ArrowDown presses bring
    `historyIndex` back to -1, and the last ArrowDown leaves the input empty.
  */
  lemma RecallRoundTrip(history: seq<string>, n: nat)
    ensures NavigatedAll(-1, |history|, Repeat(Up, n) + Repeat(Down, n)) == -1
    ensures CommandAt(history, NavigatedAll(-1, |history|, Repeat(Up, n) + Repeat(Down, n))) == ""
  {
    UpsThenDowns(|history|, n);
  }
}
