/**
 The streamed compose command (src/daemon/compose.rs, `run_streaming`): two
 pipe readers feeding one channel, a loop that may kill the child once, and the
 tail of stderr a failure carries.
 */
module Streaming {
  import opened Common
  import Lines

  const ERROR_TAIL_LINES: nat := 15

  datatype Message = Message(isStderr: bool, line: string)

  // ----- whitespace

  /** Unicode White_Space, which `str::trim` strips. */
  predicate IsSpace(c: char) {
    var u := c as int;
    || 0x09 <= u <= 0x0d || u == 0x20 || u == 0x85 || u == 0xa0 || u == 0x1680
    || 0x2000 <= u <= 0x200a || u == 0x2028 || u == 0x2029 || u == 0x202f || u == 0x205f || u == 0x3000
  }

  /** The 25 characters of Unicode's White_Space property. */
  lemma SpacesAre(c: char)
    ensures IsSpace(c) <==>
              c in "\t\n\U{0B}\U{0C}\r \U{85}\U{A0}\U{1680}\U{2000}\U{2001}\U{2002}\U{2003}\U{2004}\U{2005}\U{2006}"
                     + "\U{2007}\U{2008}\U{2009}\U{200A}\U{2028}\U{2029}\U{202F}\U{205F}\U{3000}"
  {
  }

  function TrimStart(s: string): string {
    if s != "" && IsSpace(s[0]) then TrimStart(s[1..]) else s
  }

  function TrimEnd(s: string): string {
    if s != "" && IsSpace(s[|s| - 1]) then TrimEnd(s[..|s| - 1]) else s
  }

  function Trim(s: string): string {
    TrimEnd(TrimStart(s))
  }

  predicate Blank(s: string) {
    Trim(s) == ""
  }

  /** A line is blank when it is whitespace throughout. */
  lemma {:induction false} BlankIffAllSpace(s: string)
    ensures Blank(s) <==> forall i | 0 <= i < |s| :: IsSpace(s[i])
  {
    if s != "" {
      if IsSpace(s[0]) {
        BlankIffAllSpace(s[1..]);
        assert forall i | 0 < i < |s| :: s[i] == s[1..][i - 1];
      } else {
        TrimEndKeepsFirst(s);
      }
    }
  }

  predicate AllSpace(s: string) {
    forall i | 0 <= i < |s| :: IsSpace(s[i])
  }

  /** Trimming takes white space off both ends, and all of it. */
  lemma TrimStrips(s: string) returns (before: string, after: string)
    ensures s == before + Trim(s) + after && AllSpace(before) && AllSpace(after)
    ensures Trim(s) != "" ==> !IsSpace(Trim(s)[0]) && !IsSpace(Trim(s)[|Trim(s)| - 1])
  {
    before := TrimStartStrips(s);
    after := TrimEndStrips(TrimStart(s));
    assert s == before + (Trim(s) + after);
    if TrimStart(s) != "" {
      TrimEndKeepsFirst(TrimStart(s));
    }
  }

  lemma {:induction false} TrimStartStrips(s: string) returns (before: string)
    ensures s == before + TrimStart(s) && AllSpace(before)
    ensures TrimStart(s) != "" ==> !IsSpace(TrimStart(s)[0])
  {
    before := "";
    if s != "" && IsSpace(s[0]) {
      before := TrimStartStrips(s[1..]);
      before := [s[0]] + before;
    }
  }

  lemma {:induction false} TrimEndStrips(s: string) returns (after: string)
    ensures s == TrimEnd(s) + after && AllSpace(after)
    ensures TrimEnd(s) != "" ==> !IsSpace(TrimEnd(s)[|TrimEnd(s)| - 1])
    decreases |s|
  {
    after := "";
    if s != "" && IsSpace(s[|s| - 1]) {
      after := TrimEndStrips(s[..|s| - 1]);
      after := after + [s[|s| - 1]];
    }
  }

  lemma {:induction false} TrimEndKeepsFirst(s: string)
    requires s != "" && !IsSpace(s[0])
    ensures TrimEnd(s) != "" && TrimEnd(s)[0] == s[0]
    decreases |s|
  {
    if IsSpace(s[|s| - 1]) {
      TrimEndKeepsFirst(s[..|s| - 1]);
    }
  }

  // ----- the two readers and the channel

  /** What each reader has still to send, what waits in the channel, what the loop has taken. */
  datatype Pipes = Pipes(out: seq<string>, err: seq<string>, channel: seq<Message>, taken: seq<Message>)

  datatype PipeStep = SendOut | SendErr | Take

  predicate CanStep(p: Pipes, step: PipeStep) {
    match step
    case SendOut => p.out != []
    case SendErr => p.err != []
    case Take => p.channel != []
  }

  function Stepped(p: Pipes, step: PipeStep): Pipes
    requires CanStep(p, step)
  {
    match step
    case SendOut => p.(out := p.out[1..], channel := p.channel + [Message(false, p.out[0])])
    case SendErr => p.(err := p.err[1..], channel := p.channel + [Message(true, p.err[0])])
    case Take => p.(channel := p.channel[1..], taken := p.taken + [p.channel[0]])
  }

  /** The lines of one pipe among tagged messages. */
  function Of(messages: seq<Message>, isStderr: bool): seq<string> {
    if messages == [] then []
    else (if messages[0].isStderr == isStderr then [messages[0].line] else []) + Of(messages[1..], isStderr)
  }

  lemma {:induction false} OfAppend(a: seq<Message>, b: seq<Message>, isStderr: bool)
    ensures Of(a + b, isStderr) == Of(a, isStderr) + Of(b, isStderr)
  {
    if a == [] {
      assert a + b == b;
    } else {
      assert (a + b)[1..] == a[1..] + b;
      OfAppend(a[1..], b, isStderr);
    }
  }

  /** All of a pipe's lines, wherever they are on their way. */
  function Whole(p: Pipes, isStderr: bool): seq<string> {
    Of(p.taken + p.channel, isStderr) + (if isStderr then p.err else p.out)
  }

  lemma StepKeepsWhole(p: Pipes, step: PipeStep, isStderr: bool)
    requires CanStep(p, step)
    ensures Whole(Stepped(p, step), isStderr) == Whole(p, isStderr)
  {
    var q := Stepped(p, step);
    if step == Take {
      assert q.taken + q.channel == p.taken + p.channel;
    } else {
      var sent := if step == SendOut then Message(false, p.out[0]) else Message(true, p.err[0]);
      assert q.taken + q.channel == p.taken + p.channel + [sent];
      OfAppend(p.taken + p.channel, [sent], isStderr);
      assert Of([sent], isStderr) == if sent.isStderr == isStderr then [sent.line] else [];
    }
  }

  ghost predicate Reaches(p: Pipes, steps: seq<PipeStep>, q: Pipes)
    decreases |steps|
  {
    if steps == [] then p == q
    else CanStep(p, steps[0]) && Reaches(Stepped(p, steps[0]), steps[1..], q)
  }

  /** Both senders dropped and the channel drained: the loop's receive reports a disconnect. */
  predicate Disconnected(p: Pipes) {
    p.out == [] && p.err == [] && p.channel == []
  }

  /** Whatever the interleaving, the loop has by then taken each pipe's lines once each, in their order. */
  lemma {:induction false} EveryLineTakenInOrder(p: Pipes, steps: seq<PipeStep>, q: Pipes)
    requires p.channel == [] && p.taken == [] && Reaches(p, steps, q) && Disconnected(q)
    ensures Of(q.taken, false) == p.out && Of(q.taken, true) == p.err
  {
    WholeKept(p, steps, q, false);
    WholeKept(p, steps, q, true);
    assert q.taken + q.channel == q.taken && p.taken + p.channel == [];
    assert Of(q.taken, false) + [] == Of(q.taken, false) && Of(q.taken, true) + [] == Of(q.taken, true);
    assert [] + p.out == p.out && [] + p.err == p.err;
  }

  lemma {:induction false} WholeKept(p: Pipes, steps: seq<PipeStep>, q: Pipes, isStderr: bool)
    requires Reaches(p, steps, q)
    ensures Whole(q, isStderr) == Whole(p, isStderr)
    decreases |steps|
  {
    if steps != [] {
      StepKeepsWhole(p, steps[0], isStderr);
      WholeKept(Stepped(p, steps[0]), steps[1..], q, isStderr);
    }
  }

  // ----- the loop

  /** One turn of the loop: what the bounded wait gave and what the reporter would answer if asked. */
  datatype Turn = Got(message: Message, cancelled: bool) | Timeout(cancelled: bool)
  {
    /** A blank line goes straight back to waiting, without asking. */
    predicate Asks() {
      Timeout? || !Blank(message.line)
    }
  }

  function MessageOf(turn: Turn): seq<Message> {
    if turn.Got? then [turn.message] else []
  }

  function Messages(turns: seq<Turn>): seq<Message> {
    if turns == [] then [] else MessageOf(turns[0]) + Messages(turns[1..])
  }

  function UnlessBlank(m: Message): seq<Message> {
    if Blank(m.line) then [] else [m]
  }

  function NonBlank(messages: seq<Message>): seq<Message> {
    if messages == [] then [] else UnlessBlank(messages[0]) + NonBlank(messages[1..])
  }

  function NonBlankLines(lines: seq<string>): seq<string> {
    if lines == [] then [] else (if Blank(lines[0]) then [] else [lines[0]]) + NonBlankLines(lines[1..])
  }

  function Texts(messages: seq<Message>): seq<string> {
    seq(|messages|, i requires 0 <= i < |messages| => messages[i].line)
  }

  function LastLines(lines: seq<string>, n: nat): seq<string> {
    if |lines| <= n then lines else lines[|lines| - n..]
  }

  datatype Outcome = Done | Cancelled | NotSpawned | WaitFailed | Failed(tail: string)

  /** What the run did besides its result. */
  datatype Effects = Effects(reported: seq<string>, kills: nat)

  lemma {:induction false} MessagesAppend(turns: seq<Turn>, turn: Turn)
    ensures Messages(turns + [turn]) == Messages(turns) + MessageOf(turn)
  {
    if turns == [] {
      assert turns + [turn] == [turn];
      assert MessageOf(turn) + [] == [] + MessageOf(turn);
    } else {
      assert (turns + [turn])[1..] == turns[1..] + [turn];
      MessagesAppend(turns[1..], turn);
      Associate(MessageOf(turns[0]), Messages(turns[1..]), MessageOf(turn));
    }
  }

  lemma {:induction false} NonBlankAppend(messages: seq<Message>, m: Message)
    ensures NonBlank(messages + [m]) == NonBlank(messages) + UnlessBlank(m)
  {
    if messages == [] {
      assert messages + [m] == [m];
      assert UnlessBlank(m) + [] == [] + UnlessBlank(m);
    } else {
      assert (messages + [m])[1..] == messages[1..] + [m];
      NonBlankAppend(messages[1..], m);
      Associate(UnlessBlank(messages[0]), NonBlank(messages[1..]), UnlessBlank(m));
    }
  }

  /** The non-blank messages of the turns so far. */
  function Heard(turns: seq<Turn>): seq<Message> {
    NonBlank(Messages(turns))
  }

  /** What one turn adds to them. */
  function HeardAt(turn: Turn): seq<Message> {
    if turn.Got? then UnlessBlank(turn.message) else []
  }

  lemma HeardAppend(turns: seq<Turn>, turn: Turn)
    ensures Heard(turns + [turn]) == Heard(turns) + HeardAt(turn)
    ensures Of(Heard(turns + [turn]), true) == Of(Heard(turns), true) + Of(HeardAt(turn), true)
  {
    MessagesAppend(turns, turn);
    if turn.Got? {
      NonBlankAppend(Messages(turns), turn.message);
    } else {
      assert Messages(turns) + [] == Messages(turns) && Heard(turns) + [] == Heard(turns);
    }
    OfAppend(Heard(turns), HeardAt(turn), true);
  }

  lemma LastLinesAppend(lines: seq<string>, line: string, n: nat)
    requires n > 0
    ensures var tail := LastLines(lines, n);
      LastLines(lines + [line], n) == (if |tail| == n then tail[1..] else tail) + [line]
  {
  }

  /** The caller was found gone at some turn that asked. */
  ghost predicate FoundCancelled(turns: seq<Turn>) {
    exists i :: 0 <= i < |turns| && turns[i].Asks() && turns[i].cancelled
  }

  /** How a spawned run ends. */
  ghost function OutcomeOf(hasReporter: bool, turns: seq<Turn>, waited: bool, success: bool): Outcome {
    if !waited then WaitFailed
    else if hasReporter && FoundCancelled(turns) then Cancelled
    else if success then Done
    else Failed(Trim(Lines.Join(LastLines(Of(Heard(turns), true), ERROR_TAIL_LINES))))
  }

  /** The last 15 lines, or all there are, joined by newlines and freed of white space at both ends. */
  ghost predicate FailureText(text: string, lines: seq<string>) {
    && (exists before, after ::
          && AllSpace(before) && AllSpace(after)
          && before + text + after == Lines.Join(if |lines| <= 15 then lines else lines[|lines| - 15..]))
    && (text != "" ==> !IsSpace(text[0]) && !IsSpace(text[|text| - 1]))
  }

  lemma FailureTextIs(lines: seq<string>)
    ensures FailureText(Trim(Lines.Join(LastLines(lines, ERROR_TAIL_LINES))), lines)
  {
    var before, after := TrimStrips(Lines.Join(LastLines(lines, ERROR_TAIL_LINES)));
  }

  method RunStreaming(
    hasReporter: bool, cancelledBefore: bool, banner: string, spawned: bool, turns: seq<Turn>, waited: bool,
    success: bool)
    returns (outcome: Outcome, effects: Effects)
    ensures hasReporter && cancelledBefore ==> outcome == Cancelled && effects == Effects([], 0)
    ensures !(hasReporter && cancelledBefore) && !spawned ==>
              outcome == NotSpawned && effects == Effects(if hasReporter then [banner] else [], 0)
    ensures !(hasReporter && cancelledBefore) && spawned ==>
              && effects.reported == (if hasReporter then [banner] + Texts(Heard(turns)) else [])
              && effects.kills == (if hasReporter && FoundCancelled(turns) then 1 else 0)
              && outcome == OutcomeOf(hasReporter, turns, waited, success)
    ensures !(hasReporter && cancelledBefore) && spawned ==>
              && (outcome == WaitFailed <==> !waited)
              && (outcome == Cancelled <==> waited && effects.kills == 1)
              && (outcome == Done <==> waited && success && effects.kills == 0)
              && (outcome.Failed? <==> waited && !success && effects.kills == 0)
              && (outcome.Failed? ==> FailureText(outcome.tail, Of(Heard(turns), true)))
  {
    effects := Effects([], 0);
    if hasReporter && cancelledBefore {
      return Cancelled, effects;
    }
    if hasReporter {
      effects := effects.(reported := [banner]);
    }
    if !spawned {
      return NotSpawned, effects;
    }
    var tail, killed;
    effects, tail, killed := Pump(hasReporter, effects, turns);
    if !waited {
      outcome := WaitFailed;
    } else if killed {
      outcome := Cancelled;
    } else if !success {
      FailureTextIs(Of(Heard(turns), true));
      outcome := Failed(Trim(Lines.Join(tail)));
    } else {
      outcome := Done;
    }
  }

  /** What a received line adds to the report and to the tail. */
  lemma TurnHeard(first: seq<string>, heard: seq<Message>, errors: seq<string>, m: Message)
    ensures Blank(m.line) ==> heard + UnlessBlank(m) == heard && errors + Of(UnlessBlank(m), true) == errors
    ensures !Blank(m.line) ==> first + Texts(heard + UnlessBlank(m)) == first + Texts(heard) + [m.line]
    ensures !Blank(m.line) && !m.isStderr ==> errors + Of(UnlessBlank(m), true) == errors
    ensures !Blank(m.line) && m.isStderr ==>
              var tail := LastLines(errors, ERROR_TAIL_LINES);
              LastLines(errors + Of(UnlessBlank(m), true), ERROR_TAIL_LINES)
              == (if |tail| == ERROR_TAIL_LINES then tail[1..] else tail) + [m.line]
  {
    if !Blank(m.line) {
      assert Texts(heard + [m]) == Texts(heard) + [m.line];
      Associate(first, Texts(heard), [m.line]);
      assert Of([m], true) == if m.isStderr then [m.line] else [];
      LastLinesAppend(errors, m.line, ERROR_TAIL_LINES);
    }
  }

  /** What the loop has done after these turns. */
  ghost predicate Pumped(
    hasReporter: bool, before: Effects, turns: seq<Turn>, effects: Effects, tail: seq<string>, killed: bool)
  {
    && effects.reported == before.reported + (if hasReporter then Texts(Heard(turns)) else [])
    && effects.kills == before.kills + (if killed then 1 else 0)
    && (killed <==> hasReporter && FoundCancelled(turns))
    && tail == LastLines(Of(Heard(turns), true), ERROR_TAIL_LINES)
  }

  /** The receive loop. */
  method Pump(hasReporter: bool, before: Effects, turns: seq<Turn>)
    returns (effects: Effects, tail: seq<string>, killed: bool)
    ensures Pumped(hasReporter, before, turns, effects, tail, killed)
  {
    effects, tail, killed := before, [], false;
    assert Texts(Heard([])) == [] && before.reported + [] == before.reported;
    for i := 0 to |turns|
      invariant Pumped(hasReporter, before, turns[..i], effects, tail, killed)
    {
      assert turns[..i + 1] == turns[..i] + [turns[i]];
      effects, tail, killed := PumpTurn(hasReporter, before, turns[..i], turns[i], effects, tail, killed);
    }
    assert turns[..|turns|] == turns;
  }

  /** One turn of it. */
  method PumpTurn(
    hasReporter: bool, ghost before: Effects, ghost turns: seq<Turn>, turn: Turn, effects0: Effects,
    tail0: seq<string>, killed0: bool)
    returns (effects: Effects, tail: seq<string>, killed: bool)
    requires Pumped(hasReporter, before, turns, effects0, tail0, killed0)
    ensures Pumped(hasReporter, before, turns + [turn], effects, tail, killed)
  {
    effects, tail, killed := effects0, tail0, killed0;
    HeardAppend(turns, turn);
    FoundAppend(turns, turn);
    if turn.Got? {
      TurnHeard(before.reported, Heard(turns), Of(Heard(turns), true), turn.message);
      if Blank(turn.message.line) {
        return;
      }
      if hasReporter {
        effects := effects.(reported := effects.reported + [turn.message.line]);
      }
      if turn.message.isStderr {
        if |tail| == ERROR_TAIL_LINES {
          tail := tail[1..];
        }
        tail := tail + [turn.message.line];
      }
    }
    if !killed && hasReporter && turn.cancelled {
      killed := true;
      effects := effects.(kills := effects.kills + 1);
    }
  }

  lemma FoundAppend(turns: seq<Turn>, turn: Turn)
    ensures FoundCancelled(turns + [turn]) <==> FoundCancelled(turns) || (turn.Asks() && turn.cancelled)
  {
    var all := turns + [turn];
    assert all[|turns|] == turn;
    assert forall i | 0 <= i < |turns| :: all[i] == turns[i];
  }

  // ----- end to end

  lemma {:induction false} NonBlankProjects(messages: seq<Message>, isStderr: bool)
    ensures Of(NonBlank(messages), isStderr) == NonBlankLines(Of(messages, isStderr))
  {
    if messages != [] {
      NonBlankProjects(messages[1..], isStderr);
      OfAppend(UnlessBlank(messages[0]), NonBlank(messages[1..]), isStderr);
      var here := if messages[0].isStderr == isStderr then [messages[0].line] else [];
      var later := Of(messages[1..], isStderr);
      assert here + later == if here == [] then later else here + later;
      assert here != [] ==> (here + later)[1..] == later;
      assert Of(UnlessBlank(messages[0]), isStderr) == NonBlankLines(here);
    }
  }

  /**
   From bytes to report: for every way the pipes are cut into reads, every
   interleaving of the readers and every pattern of waits, the loop hears
   exactly the non-blank lines of each pipe, each once and in its order; so the
   tail of a failure is taken from the whole of stderr.
   */
  lemma HearsWholePipes(
    outBytes: seq<byte>, errBytes: seq<byte>, lossy: seq<byte> -> string, steps: seq<PipeStep>, end: Pipes,
    turns: seq<Turn>)
    requires var start :=
        Pipes(Lines.Decoded(lossy, Lines.Segments(outBytes)), Lines.Decoded(lossy, Lines.Segments(errBytes)), [], []);
      Reaches(start, steps, end) && Disconnected(end)
    requires Messages(turns) == end.taken
    ensures Of(Heard(turns), false) == NonBlankLines(Lines.Decoded(lossy, Lines.Segments(outBytes)))
    ensures Of(Heard(turns), true) == NonBlankLines(Lines.Decoded(lossy, Lines.Segments(errBytes)))
  {
    var start :=
        Pipes(Lines.Decoded(lossy, Lines.Segments(outBytes)), Lines.Decoded(lossy, Lines.Segments(errBytes)), [], []);
    EveryLineTakenInOrder(start, steps, end);
    NonBlankProjects(end.taken, false);
    NonBlankProjects(end.taken, true);
  }

  /** Which lines those are: each that is not white space throughout, in order. */
  lemma {:induction false} NonBlankLinesKeep(a: seq<string>, line: string, b: seq<string>)
    ensures NonBlankLines([]) == []
    ensures NonBlankLines(a + [line] + b)
         == NonBlankLines(a) + (if AllSpace(line) then [] else [line]) + NonBlankLines(b)
  {
    var here := if AllSpace(line) then [] else [line];
    if a == [] {
      BlankIffAllSpace(line);
      assert a + [line] + b == [line] + b;
      assert ([line] + b)[1..] == b && [] + here == here;
    } else {
      NonBlankLinesKeep(a[1..], line, b);
      assert (a + [line] + b)[1..] == a[1..] + [line] + b;
      var first := if Blank(a[0]) then [] else [a[0]];
      Associate(first, NonBlankLines(a[1..]) + here, NonBlankLines(b));
      Associate(first, NonBlankLines(a[1..]), here);
    }
  }

  /** The report grows by each line that is not white space throughout, and by nothing else. */
  lemma ReportGrows(turns: seq<Turn>, turn: Turn)
    ensures Texts(Heard([])) == []
    ensures Texts(Heard(turns + [turn]))
         == Texts(Heard(turns)) + (if turn.Got? && !AllSpace(turn.message.line) then [turn.message.line] else [])
  {
    HeardAppend(turns, turn);
    if turn.Got? {
      BlankIffAllSpace(turn.message.line);
    }
  }

  /**
   What a failure carries, from the bytes of stderr on: every run of bytes
   between CR and LF, decoded, that is not white space throughout; of those the
   last 15, joined and trimmed.
   */
  lemma FailureIsStderrTail(
    outBytes: seq<byte>, errBytes: seq<byte>, lossy: seq<byte> -> string, steps: seq<PipeStep>, end: Pipes,
    turns: seq<Turn>, text: string)
    requires var start :=
        Pipes(Lines.Decoded(lossy, Lines.Segments(outBytes)), Lines.Decoded(lossy, Lines.Segments(errBytes)), [], []);
      Reaches(start, steps, end) && Disconnected(end)
    requires Messages(turns) == end.taken && OutcomeOf(false, turns, true, false) == Failed(text)
    ensures FailureText(text, NonBlankLines(Lines.Decoded(lossy, Lines.Segments(errBytes))))
  {
    HearsWholePipes(outBytes, errBytes, lossy, steps, end, turns);
    FailureTextIs(Of(Heard(turns), true));
  }

  /** A failing exit after one line on stderr: the error is that line. */
  lemma FailureExample(text: string)
    requires OutcomeOf(true, [Got(Message(true, "no such service"), false)], true, false) == Failed(text)
    ensures text == "no such service"
  {
    var m := Message(true, "no such service");
    var turns := [Got(m, false)];
    assert turns[1..] == [] && Messages(turns) == [m] + [] == [m];
    assert !AllSpace(m.line) by {
      assert !IsSpace(m.line[0]);
    }
    BlankIffAllSpace(m.line);
    assert [m][1..] == [] && NonBlank([m]) == [m] + [] == [m];
    assert Of([m], true) == [m.line] + [] == [m.line];
    assert Lines.Join([m.line]) == m.line;
    assert !IsSpace(m.line[0]) && !IsSpace(m.line[|m.line| - 1]);
    assert TrimStart(m.line) == m.line && TrimEnd(m.line) == m.line;
  }

  /** A caller gone at one turn is gone at every later one. */
  ghost predicate StaysGone(turns: seq<Turn>) {
    forall i, j | 0 <= i < j < |turns| && turns[i].cancelled :: turns[j].cancelled
  }

  /** The first turn at which the caller is gone, or the number of turns. */
  function GoneFrom(turns: seq<Turn>): (n: nat)
    ensures n <= |turns| && (n < |turns| ==> turns[n].cancelled)
    ensures forall i | 0 <= i < n :: !turns[i].cancelled
  {
    if turns == [] || turns[0].cancelled then 0 else 1 + GoneFrom(turns[1..])
  }

  /** The turn brings a line of white space only. */
  predicate BlankTurn(turn: Turn) {
    turn.Got? && AllSpace(turn.message.line)
  }

  /**
   An awaited run does not end Cancelled exactly when, from the moment the
   caller is gone, the child writes blank lines only and never pauses for the
   length of the wait.
   */
  lemma CancelMissedIff(turns: seq<Turn>, success: bool)
    requires StaysGone(turns)
    ensures OutcomeOf(true, turns, true, success) != Cancelled
      <==> forall j | GoneFrom(turns) <= j < |turns| :: BlankTurn(turns[j])
  {
    if FoundCancelled(turns) {
      var i :| 0 <= i < |turns| && turns[i].Asks() && turns[i].cancelled;
      GoneAfter(turns, i);
      AsksUnlessBlank(turns[i]);
    } else {
      forall j | GoneFrom(turns) <= j < |turns|
        ensures BlankTurn(turns[j])
      {
        GoneAfter(turns, j);
        AsksUnlessBlank(turns[j]);
      }
    }
  }

  lemma GoneAfter(turns: seq<Turn>, j: nat)
    requires StaysGone(turns) && j < |turns|
    ensures turns[j].cancelled <==> j >= GoneFrom(turns)
  {
  }

  lemma AsksUnlessBlank(turn: Turn)
    ensures turn.Asks() <==> !BlankTurn(turn)
  {
    if turn.Got? {
      BlankIffAllSpace(turn.message.line);
    }
  }

  /** Such a run: the caller leaves, the child prints one more line, a blank one, and ends well. */
  lemma CancelMissedExample() returns (turns: seq<Turn>)
    ensures turns != [] && StaysGone(turns) && turns[|turns| - 1].cancelled
    ensures OutcomeOf(true, turns, true, true) == Done
  {
    turns := [Got(Message(false, "built"), false), Got(Message(false, " "), true)];
    assert GoneFrom(turns) == 1 by {
      assert turns[1..] == [turns[1]];
    }
    CancelMissedIff(turns, true);
  }
}
