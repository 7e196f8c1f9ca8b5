/**
 Shell completion (src/cli/complete.rs): the walk over the words already typed
 and the candidates it leads to, over an abstract command tree. What values an
 argument takes (`values_for`) is a parameter.
 */
module Completion {
  import opened Common

  datatype Arg = Arg(id: string, long: Option<string>, short: Option<char>, takesValue: bool, hidden: bool)
  {
    predicate Positional() {
      long == None && short == None
    }
  }

  datatype Cmd = Cmd(name: string, aliases: seq<string>, hidden: bool, args: seq<Arg>, subs: seq<Cmd>)

  datatype Paths = NoPaths | FilePaths | DirPaths

  datatype Reply = Reply(candidates: seq<string>, paths: Paths)

  /** The candidates an argument's value has at a place in the tree. */
  type Values = (seq<string>, Arg) -> Reply

  // ----- looking things up

  function FindSub(subs: seq<Cmd>, word: string): Option<Cmd> {
    if subs == [] then None
    else if subs[0].name == word || word in subs[0].aliases then Some(subs[0])
    else FindSub(subs[1..], word)
  }

  function LongArg(args: seq<Arg>, name: string): Option<Arg> {
    if args == [] then None
    else if args[0].long == Some(name) then Some(args[0])
    else LongArg(args[1..], name)
  }

  function ShortArg(args: seq<Arg>, flag: char): Option<Arg> {
    if args == [] then None
    else if args[0].short == Some(flag) then Some(args[0])
    else ShortArg(args[1..], flag)
  }

  predicate StartsWith(s: string, prefix: string) {
    prefix <= s
  }

  /** `split_once('=')` */
  function SplitEquals(s: string): Option<(string, string)> {
    if s == "" then None
    else if s[0] == '=' then Some(("", s[1..]))
    else match SplitEquals(s[1..])
      case None => None
      case Some(parts) => Some(([s[0]] + parts.0, parts.1))
  }

  // ----- the walk

  /** Where the walk stands: the command level, how it got there, and what the next word will mean. */
  datatype Walk = Walk(cmd: Cmd, path: seq<string>, filled: nat, awaiting: Option<Arg>, positionalsOnly: bool)

  /** An option of this level that would take the word after `word` as its value. */
  function Pending(cmd: Cmd, word: string): Option<Arg> {
    if StartsWith(word, "--") then
      if '=' in word[2..] then None else WantingValue(LongArg(cmd.args, word[2..]))
    else if |word| > 1 && word[0] == '-' then WantingValue(ShortArg(cmd.args, word[|word| - 1]))
    else None
  }

  function WantingValue(arg: Option<Arg>): Option<Arg> {
    if arg.Some? && arg.value.takesValue then arg else None
  }

  /** A word that reads as an option: `--name`, or a dash with something behind it. */
  predicate Dashed(word: string) {
    StartsWith(word, "--") || (|word| > 1 && word[0] == '-')
  }

  function Advance(w: Walk, word: string): Walk {
    if w.awaiting.Some? then w.(awaiting := None)
    else if w.positionalsOnly then w.(filled := w.filled + 1)
    else if word == "--" then w.(positionalsOnly := true)
    else if Dashed(word) then w.(awaiting := Pending(w.cmd, word))
    else match FindSub(w.cmd.subs, word)
      case Some(sub) => w.(cmd := sub, path := w.path + [sub.name], filled := 0)
      case None => w.(filled := w.filled + 1)
  }

  function WalkAll(w: Walk, words: seq<string>): Walk
    decreases |words|
  {
    if words == [] then w else WalkAll(Advance(w, words[0]), words[1..])
  }

  function Start(root: Cmd): Walk {
    Walk(root, [root.name], 0, None, false)
  }

  // ----- the reply

  function Flags(args: seq<Arg>): seq<string> {
    if args == [] then []
    else (if !args[0].hidden && args[0].long.Some? then ["--" + args[0].long.value] else []) + Flags(args[1..])
  }

  function SubNames(subs: seq<Cmd>): seq<string> {
    if subs == [] then [] else (if subs[0].hidden then [] else [subs[0].name]) + SubNames(subs[1..])
  }

  function Positionals(args: seq<Arg>): seq<Arg> {
    if args == [] then [] else (if args[0].Positional() then [args[0]] else []) + Positionals(args[1..])
  }

  function Keeping(candidates: seq<string>, prefix: string): seq<string> {
    if candidates == [] then []
    else (if StartsWith(candidates[0], prefix) then [candidates[0]] else []) + Keeping(candidates[1..], prefix)
  }

  function Filtered(reply: Reply, prefix: string): Reply {
    reply.(candidates := Keeping(reply.candidates, prefix))
  }

  function Prefixed(prefix: string, candidates: seq<string>): seq<string> {
    if candidates == [] then [] else [prefix + candidates[0]] + Prefixed(prefix, candidates[1..])
  }

  /** The `--name=` the word under the cursor starts with, when such an option exists here. */
  function InlineOption(cmd: Cmd, current: string): Option<(string, Arg)> {
    if !StartsWith(current, "--") then None
    else match SplitEquals(current[2..])
      case None => None
      case Some(parts) =>
        match LongArg(cmd.args, parts.0)
        case None => None
        case Some(arg) => Some(("--" + parts.0 + "=", arg))
  }

  /** Which branch answers, once the typed words are walked. */
  function ReplyAt(w: Walk, current: string, values: Values): Reply {
    var inline := InlineOption(w.cmd, current);
    if inline.Some? then
      var reply := values(w.path, inline.value.1);
      Filtered(reply.(candidates := Prefixed(inline.value.0, reply.candidates)), current)
    else if w.awaiting.Some? then Filtered(values(w.path, w.awaiting.value), current)
    else if StartsWith(current, "-") then Filtered(Reply(Flags(w.cmd.args), NoPaths), current)
    else
      var subs := SubNames(w.cmd.subs);
      var positionals := Positionals(w.cmd.args);
      if w.filled < |positionals| then
        var reply := values(w.path, positionals[w.filled]);
        Filtered(Reply(subs + reply.candidates, reply.paths), current)
      else Filtered(Reply(subs, NoPaths), current)
  }

  /** `words[0]` is the binary, the last word is under the cursor. */
  method Complete(words: seq<string>, root: Cmd, values: Values) returns (reply: Reply)
    ensures words == [] ==> reply == Reply([], NoPaths)
    ensures words != [] ==> reply == ReplyAt(WalkAll(Start(root), Typed(words)), words[|words| - 1], values)
  {
    if words == [] {
      return Reply([], NoPaths);
    }
    var w := WalkWords(root, words[..|words| - 1]);
    reply := Answer(w, words[|words| - 1], values);
  }

  /** The loop over the words already typed, the binary skipped. */
  method WalkWords(root: Cmd, typed: seq<string>) returns (w: Walk)
    ensures w == WalkAll(Start(root), if typed == [] then [] else typed[1..])
  {
    var cmd, path := root, [root.name];
    var filled := 0;
    var awaiting: Option<Arg> := None;
    var positionalsOnly := false;
    var i := 1;
    while i < |typed|
      invariant 1 <= i
      invariant WalkAll(Start(root), if typed == [] then [] else typed[1..])
             == WalkAll(Walk(cmd, path, filled, awaiting, positionalsOnly), if i <= |typed| then typed[i..] else [])
      decreases |typed| - i
    {
      var word := typed[i];
      assert typed[i..][1..] == typed[i + 1..];
      i := i + 1;
      if awaiting.Some? {
        awaiting := None;
        continue;
      }
      if positionalsOnly {
        filled := filled + 1;
        continue;
      }
      if word == "--" {
        positionalsOnly := true;
        continue;
      }
      if StartsWith(word, "--") {
        var long := word[2..];
        if '=' !in long {
          var arg := LongArg(cmd.args, long);
          if arg.Some? && arg.value.takesValue {
            awaiting := arg;
          }
        }
        continue;
      }
      if |word| > 1 && word[0] == '-' {
        var arg := ShortArg(cmd.args, word[|word| - 1]);
        if arg.Some? && arg.value.takesValue {
          awaiting := arg;
        }
        continue;
      }
      var sub := FindSub(cmd.subs, word);
      if sub.Some? {
        path := path + [sub.value.name];
        cmd := sub.value;
        filled := 0;
      } else {
        filled := filled + 1;
      }
    }
    w := Walk(cmd, path, filled, awaiting, positionalsOnly);
  }

  /** The reply, branch by branch. */
  method Answer(w: Walk, current: string, values: Values) returns (reply: Reply)
    ensures reply == ReplyAt(w, current, values)
  {
    if StartsWith(current, "--") {
      var parts := SplitEquals(current[2..]);
      if parts.Some? {
        var arg := LongArg(w.cmd.args, parts.value.0);
        if arg.Some? {
          var prefix := "--" + parts.value.0 + "=";
          reply := values(w.path, arg.value);
          reply := reply.(candidates := Prefixed(prefix, reply.candidates));
          SplitEqualsJoins(current[2..]);
          assert current == "--" + current[2..];
          assert prefix + parts.value.1 == current;
          return Filtered(reply, prefix + parts.value.1);
        }
      }
    }
    if w.awaiting.Some? {
      return Filtered(values(w.path, w.awaiting.value), current);
    }
    if StartsWith(current, "-") {
      return Filtered(Reply(Flags(w.cmd.args), NoPaths), current);
    }
    var candidates, paths := SubNames(w.cmd.subs), NoPaths;
    var positionals := Positionals(w.cmd.args);
    if w.filled < |positionals| {
      reply := values(w.path, positionals[w.filled]);
      candidates := candidates + reply.candidates;
      paths := reply.paths;
    }
    return Filtered(Reply(candidates, paths), current);
  }

  /** The words between the binary and the cursor. */
  function Typed(words: seq<string>): seq<string> {
    if |words| <= 1 then [] else words[1..|words| - 1]
  }

  lemma {:induction false} SplitEqualsJoins(s: string)
    ensures SplitEquals(s).Some? ==> s == SplitEquals(s).value.0 + "=" + SplitEquals(s).value.1
    ensures SplitEquals(s).Some? <==> '=' in s
    ensures SplitEquals(s).Some? ==> '=' !in SplitEquals(s).value.0
  {
    if s != "" && s[0] != '=' {
      SplitEqualsJoins(s[1..]);
    }
  }

  // ----- what the reply guarantees

  lemma {:induction false} KeepingKeeps(candidates: seq<string>, prefix: string, c: string)
    ensures c in Keeping(candidates, prefix) <==> c in candidates && StartsWith(c, prefix)
  {
    if candidates != [] {
      KeepingKeeps(candidates[1..], prefix, c);
      assert c in candidates <==> c == candidates[0] || c in candidates[1..];
    }
  }

  /** The first argument with this long name. */
  ghost predicate FirstLong(args: seq<Arg>, name: string, k: int) {
    0 <= k < |args| && args[k].long == Some(name) && forall j | 0 <= j < k :: args[j].long != Some(name)
  }

  /** The first argument with this short flag. */
  ghost predicate FirstShort(args: seq<Arg>, flag: char, k: int) {
    0 <= k < |args| && args[k].short == Some(flag) && forall j | 0 <= j < k :: args[j].short != Some(flag)
  }

  /** The first subcommand that goes by this word, its aliases included. */
  ghost predicate FirstSub(subs: seq<Cmd>, word: string, k: int) {
    && 0 <= k < |subs| && (subs[k].name == word || word in subs[k].aliases)
    && forall j | 0 <= j < k :: subs[j].name != word && word !in subs[j].aliases
  }

  lemma {:induction false} LongArgFindsFirst(args: seq<Arg>, name: string) returns (k: int)
    ensures match LongArg(args, name)
            case None => forall j | 0 <= j < |args| :: args[j].long != Some(name)
            case Some(arg) => FirstLong(args, name, k) && arg == args[k]
  {
    k := 0;
    if args != [] && args[0].long != Some(name) {
      var n := LongArgFindsFirst(args[1..], name);
      assert forall j | 0 < j < |args| :: args[j] == args[1..][j - 1];
      k := n + 1;
    }
  }

  lemma {:induction false} ShortArgFindsFirst(args: seq<Arg>, flag: char) returns (k: int)
    ensures match ShortArg(args, flag)
            case None => forall j | 0 <= j < |args| :: args[j].short != Some(flag)
            case Some(arg) => FirstShort(args, flag, k) && arg == args[k]
  {
    k := 0;
    if args != [] && args[0].short != Some(flag) {
      var n := ShortArgFindsFirst(args[1..], flag);
      assert forall j | 0 < j < |args| :: args[j] == args[1..][j - 1];
      k := n + 1;
    }
  }

  lemma {:induction false} FindSubFindsFirst(subs: seq<Cmd>, word: string) returns (k: int)
    ensures match FindSub(subs, word)
            case None => forall j | 0 <= j < |subs| :: subs[j].name != word && word !in subs[j].aliases
            case Some(sub) => FirstSub(subs, word, k) && sub == subs[k]
  {
    k := 0;
    if subs != [] && subs[0].name != word && word !in subs[0].aliases {
      var n := FindSubFindsFirst(subs[1..], word);
      assert forall j | 0 < j < |subs| :: subs[j] == subs[1..][j - 1];
      k := n + 1;
    }
  }

  /**
   Argument `k` takes the word behind `word`: it takes values, and `word` is its long
   name without an `=`, or a dash and short flags of which it is the last.
   */
  ghost predicate TakesNext(args: seq<Arg>, word: string, k: int) {
    && 0 <= k < |args| && args[k].takesValue
    && if "--" <= word then '=' !in word && FirstLong(args, word[2..], k)
       else |word| > 1 && word[0] == '-' && FirstShort(args, word[|word| - 1], k)
  }

  lemma PendingIff(cmd: Cmd, word: string, arg: Arg)
    ensures Pending(cmd, word) == Some(arg) <==> exists k :: TakesNext(cmd.args, word, k) && arg == cmd.args[k]
  {
    if "--" <= word {
      var name := word[2..];
      assert word == "--" + name;
      var n := LongArgFindsFirst(cmd.args, name);
      assert forall k | FirstLong(cmd.args, name, k) :: LongArg(cmd.args, name).Some? && k == n;
    } else if |word| > 1 {
      var flag := word[|word| - 1];
      var n := ShortArgFindsFirst(cmd.args, flag);
      assert forall k | FirstShort(cmd.args, flag, k) :: ShortArg(cmd.args, flag).Some? && k == n;
    }
  }

  /**
   What one typed word does, nothing being pending and no `--` before it: `--` ends
   the descent; any other word behind a dash leaves the walk where it is, pending
   exactly for the argument that takes the next word; a subcommand's name or alias
   descends into it; any other word, a lone dash included, fills one positional.
   */
  lemma WordMeans(root: Cmd, before: seq<string>, word: string)
    requires var w := WalkAll(Start(root), before); w.awaiting == None && !w.positionalsOnly
    ensures var w, after := WalkAll(Start(root), before), WalkAll(Start(root), before + [word]);
      if word == "--" then after == w.(positionalsOnly := true)
      else if |word| > 1 && word[0] == '-' then
        && after.(awaiting := None) == w
        && forall arg :: after.awaiting == Some(arg) <==>
             exists k :: TakesNext(w.cmd.args, word, k) && arg == w.cmd.args[k]
      else
        && (forall k | FirstSub(w.cmd.subs, word, k) ::
              after == Walk(w.cmd.subs[k], w.path + [w.cmd.subs[k].name], 0, None, false))
        && ((forall s | s in w.cmd.subs :: s.name != word && word !in s.aliases) ==>
              after == w.(filled := w.filled + 1))
  {
    var w := WalkAll(Start(root), before);
    WalkAppend(Start(root), before, [word]);
    assert WalkAll(w, [word]) == Advance(w, word);
    if Dashed(word) {
      forall arg
        ensures Pending(w.cmd, word) == Some(arg) <==>
                  exists k :: TakesNext(w.cmd.args, word, k) && arg == w.cmd.args[k]
      {
        PendingIff(w.cmd, word, arg);
      }
    } else {
      var n := FindSubFindsFirst(w.cmd.subs, word);
      assert forall k | FirstSub(w.cmd.subs, word, k) :: FindSub(w.cmd.subs, word).Some? && k == n;
    }
  }

  lemma {:induction false} FlagsIff(args: seq<Arg>, flag: string)
    ensures flag in Flags(args) <==> exists a :: a in args && !a.hidden && a.long.Some? && flag == "--" + a.long.value
  {
    if args != [] {
      FlagsIff(args[1..], flag);
      assert forall a :: a in args <==> a == args[0] || a in args[1..];
    }
  }

  lemma {:induction false} PositionalsAppend(a: seq<Arg>, b: seq<Arg>)
    ensures Positionals(a + b) == Positionals(a) + Positionals(b)
  {
    if a == [] {
      assert a + b == b;
    } else {
      var first := if a[0].Positional() then [a[0]] else [];
      assert (a + b)[1..] == a[1..] + b;
      PositionalsAppend(a[1..], b);
      Associate(first, Positionals(a[1..]), Positionals(b));
    }
  }

  /** The positionals are the arguments with neither a long name nor a short flag, in their order. */
  lemma PositionalsInOrder(before: seq<Arg>, arg: Arg, behind: seq<Arg>)
    ensures Positionals(before + [arg] + behind) ==
              Positionals(before) + (if arg.long == None && arg.short == None then [arg] else []) + Positionals(behind)
  {
    PositionalsAppend(before + [arg], behind);
    PositionalsAppend(before, [arg]);
    assert [arg][1..] == [];
  }

  /** The word under the cursor is `--name=typed` for the long name of an option here. */
  ghost predicate Inlines(cmd: Cmd, current: string, name: string, typed: string, k: int) {
    current == "--" + name + "=" + typed && '=' !in name && FirstLong(cmd.args, name, k)
  }

  lemma InlineIff(cmd: Cmd, current: string)
    ensures InlineOption(cmd, current).Some? <==> exists name, typed, k :: Inlines(cmd, current, name, typed, k)
    ensures forall name, typed, k | Inlines(cmd, current, name, typed, k) ::
              InlineOption(cmd, current) == Some(("--" + name + "=", cmd.args[k]))
  {
    if "--" <= current {
      var long := current[2..];
      assert current == "--" + long;
      SplitEqualsJoins(long);
      var parts := SplitEquals(long);
      if parts.Some? {
        var k := LongArgFindsFirst(cmd.args, parts.value.0);
        assert InlineOption(cmd, current).Some? ==> Inlines(cmd, current, parts.value.0, parts.value.1, k);
      }
    }
    forall name, typed, k | Inlines(cmd, current, name, typed, k)
      ensures InlineOption(cmd, current) == Some(("--" + name + "=", cmd.args[k]))
    {
      assert current[2..] == name + "=" + typed;
      SplitEqualsAt(name, typed);
      var n := LongArgFindsFirst(cmd.args, name);
      assert LongArg(cmd.args, name).Some? && k == n;
    }
  }

  lemma {:induction false} SplitEqualsAt(name: string, typed: string)
    requires '=' !in name
    ensures SplitEquals(name + "=" + typed) == Some((name, typed))
  {
    var s := name + "=" + typed;
    if name == "" {
      assert s == "=" + typed;
    } else {
      assert s[1..] == name[1..] + "=" + typed;
      SplitEqualsAt(name[1..], typed);
      assert [s[0]] + name[1..] == name;
    }
  }

  lemma {:induction false} PrefixedIff(prefix: string, candidates: seq<string>, c: string)
    ensures c in Prefixed(prefix, candidates) <==> exists v :: v in candidates && c == prefix + v
  {
    if candidates != [] {
      PrefixedIff(prefix, candidates[1..], c);
      assert forall v :: v in candidates <==> v == candidates[0] || v in candidates[1..];
    }
  }

  /**
   A word `--name=typed` of an option is offered, whatever was pending, exactly the
   option's values that continue `typed`, each behind `--name=`, and its paths.
   */
  lemma OfferedInlineIff(w: Walk, current: string, values: Values, name: string, typed: string, k: int, c: string)
    requires Inlines(w.cmd, current, name, typed, k)
    ensures var reply := values(w.path, w.cmd.args[k]);
      && ReplyAt(w, current, values).paths == reply.paths
      && (c in ReplyAt(w, current, values).candidates <==>
            exists v :: v in reply.candidates && typed <= v && c == "--" + name + "=" + v)
  {
    InlineIff(w.cmd, current);
    var prefix, reply := "--" + name + "=", values(w.path, w.cmd.args[k]);
    PrefixedIff(prefix, reply.candidates, c);
    KeepingKeeps(Prefixed(prefix, reply.candidates), current, c);
    assert current == prefix + typed;
    forall v
      ensures current <= prefix + v <==> typed <= v
    {
      assert typed <= v ==> v == typed + v[|typed|..];
      assert current <= prefix + v ==> typed == (prefix + v)[|prefix|..|current|];
    }
  }

  /** A word an option waits for is offered exactly the option's values that continue it, and its paths. */
  lemma OfferedPendingIff(w: Walk, current: string, values: Values, c: string)
    requires w.awaiting.Some? && forall name, typed, k :: !Inlines(w.cmd, current, name, typed, k)
    ensures var reply := values(w.path, w.awaiting.value);
      && ReplyAt(w, current, values).paths == reply.paths
      && (c in ReplyAt(w, current, values).candidates <==> c in reply.candidates && current <= c)
  {
    InlineIff(w.cmd, current);
    KeepingKeeps(values(w.path, w.awaiting.value).candidates, current, c);
  }

  /**
   What a word with nothing pending is offered: visible options behind a dash, else
   subcommands and the next positional's values, with the paths that one takes.
   */
  lemma OfferedIff(w: Walk, current: string, values: Values, c: string)
    requires w.awaiting == None && forall name, typed, k :: !Inlines(w.cmd, current, name, typed, k)
    ensures c in ReplyAt(w, current, values).candidates <==>
              && StartsWith(c, current)
              && (if StartsWith(current, "-")
                  then exists a :: a in w.cmd.args && !a.hidden && a.long.Some? && c == "--" + a.long.value
                  else (exists s :: s in w.cmd.subs && !s.hidden && s.name == c)
                       || (w.filled < |Positionals(w.cmd.args)|
                           && c in values(w.path, Positionals(w.cmd.args)[w.filled]).candidates))
    ensures ReplyAt(w, current, values).paths ==
              if "-" <= current || w.filled >= |Positionals(w.cmd.args)| then NoPaths
              else values(w.path, Positionals(w.cmd.args)[w.filled]).paths
  {
    InlineIff(w.cmd, current);
    FlagsIff(w.cmd.args, c);
    SubNamesIff(w.cmd.subs, c);
    var positionals := Positionals(w.cmd.args);
    KeepingKeeps(Flags(w.cmd.args), current, c);
    KeepingKeeps(SubNames(w.cmd.subs), current, c);
    if w.filled < |positionals| {
      KeepingKeeps(SubNames(w.cmd.subs) + values(w.path, positionals[w.filled]).candidates, current, c);
    }
  }

  /** Whatever the branch, a candidate continues the word under the cursor. */
  lemma CandidatesContinue(w: Walk, current: string, values: Values, c: string)
    requires c in ReplyAt(w, current, values).candidates
    ensures StartsWith(c, current)
  {
    var inline := InlineOption(w.cmd, current);
    var positionals := Positionals(w.cmd.args);
    if inline.Some? {
      KeepingKeeps(Prefixed(inline.value.0, values(w.path, inline.value.1).candidates), current, c);
    } else if w.awaiting.Some? {
      KeepingKeeps(values(w.path, w.awaiting.value).candidates, current, c);
    } else if StartsWith(current, "-") {
      KeepingKeeps(Flags(w.cmd.args), current, c);
    } else if w.filled < |positionals| {
      KeepingKeeps(SubNames(w.cmd.subs) + values(w.path, positionals[w.filled]).candidates, current, c);
    } else {
      KeepingKeeps(SubNames(w.cmd.subs), current, c);
    }
  }

  lemma {:induction false} WalkAppend(w: Walk, a: seq<string>, b: seq<string>)
    ensures WalkAll(w, a + b) == WalkAll(WalkAll(w, a), b)
    decreases |a|
  {
    if a == [] {
      assert a + b == b;
    } else {
      assert (a + b)[1..] == a[1..] + b;
      WalkAppend(Advance(w, a[0]), a[1..], b);
    }
  }

  /**
   An option and its value, wherever they stand before a `--`, leave no trace:
   the rest of the line completes exactly as if both had not been typed.
   */
  lemma OptionValueLeavesNoTrace(root: Cmd, before: seq<string>, option: string, value: string, after: seq<string>)
    requires var w := WalkAll(Start(root), before);
      w.awaiting == None && !w.positionalsOnly && option != "--" && exists k :: TakesNext(w.cmd.args, option, k)
    ensures WalkAll(Start(root), before + [option, value] + after) == WalkAll(Start(root), before + after)
  {
    var w := WalkAll(Start(root), before);
    var k :| TakesNext(w.cmd.args, option, k);
    PendingIff(w.cmd, option, w.cmd.args[k]);
    WalkAppend(Start(root), before + [option, value], after);
    WalkAppend(Start(root), before, [option, value]);
    WalkAppend(Start(root), before, after);
    assert [option, value][1..] == [value];
    assert WalkAll(w, [option, value]) == WalkAll(Advance(w, option), [value]);
    assert WalkAll(Advance(w, option), [value]) == Advance(Advance(w, option), value);
    assert Advance(Advance(w, option), value) == w;
  }

  /** Neither does an option that takes no value from the next word: a flag, or one written with `=`. */
  lemma FlagLeavesNoTrace(root: Cmd, before: seq<string>, flag: string, after: seq<string>)
    requires var w := WalkAll(Start(root), before);
      && w.awaiting == None && !w.positionalsOnly && flag != "--" && |flag| > 1 && flag[0] == '-'
      && forall k :: !TakesNext(w.cmd.args, flag, k)
    ensures WalkAll(Start(root), before + [flag] + after) == WalkAll(Start(root), before + after)
  {
    WordMeans(root, before, flag);
    WalkAppend(Start(root), before + [flag], after);
    WalkAppend(Start(root), before, after);
  }

  /** Behind `--` every word is a positional: the command level stays, whatever the words are. */
  lemma {:induction false} BehindDashes(w: Walk, words: seq<string>)
    requires w.positionalsOnly && w.awaiting == None
    ensures WalkAll(w, words) == w.(filled := w.filled + |words|)
    decreases |words|
  {
    if words != [] {
      BehindDashes(Advance(w, words[0]), words[1..]);
    }
  }

  lemma DashesEndDescent(root: Cmd, before: seq<string>, after: seq<string>)
    requires var w := WalkAll(Start(root), before); w.awaiting == None && !w.positionalsOnly
    ensures var w := WalkAll(Start(root), before);
      WalkAll(Start(root), before + ["--"] + after) == w.(filled := w.filled + |after|, positionalsOnly := true)
  {
    var w := WalkAll(Start(root), before);
    WalkAppend(Start(root), before + ["--"], after);
    WalkAppend(Start(root), before, ["--"]);
    BehindDashes(w.(positionalsOnly := true), after);
  }

  /** The level names its subcommands apart, and none of them like an option. */
  ghost predicate WellNamed(cmd: Cmd) {
    && (forall s | s in cmd.subs :: s.name != "" && s.name[0] != '-')
    && (forall i, j | 0 <= i < |cmd.subs| && 0 <= j < |cmd.subs| && i != j ::
          cmd.subs[i].name != cmd.subs[j].name && cmd.subs[i].name !in cmd.subs[j].aliases)
  }

  lemma {:induction false} SubNamesIff(subs: seq<Cmd>, name: string)
    ensures name in SubNames(subs) <==> exists s :: s in subs && !s.hidden && s.name == name
  {
    if subs != [] {
      SubNamesIff(subs[1..], name);
      assert forall s :: s in subs <==> s == subs[0] || s in subs[1..];
    }
  }

  /**
   Accepting an offered subcommand walks into exactly it, with no positional
   filled, precisely when no `--` came before; behind one the same candidate is
   still offered but only fills a positional.
   */
  lemma OfferedSubcommandIff(root: Cmd, typed: seq<string>, current: string, values: Values, k: nat)
    requires var w := WalkAll(Start(root), typed);
      WellNamed(w.cmd) && w.awaiting == None && k < |w.cmd.subs| && !w.cmd.subs[k].hidden
      && StartsWith(w.cmd.subs[k].name, current)
    ensures var w := WalkAll(Start(root), typed);
      var sub := w.cmd.subs[k];
      && sub.name in ReplyAt(w, current, values).candidates
      && (WalkAll(Start(root), typed + [sub.name]) == Walk(sub, w.path + [sub.name], 0, None, false)
          <==> !w.positionalsOnly)
  {
    var w := WalkAll(Start(root), typed);
    var sub := w.cmd.subs[k];
    assert sub in w.cmd.subs && sub.name != "" && sub.name[0] != '-';
    WalkAppend(Start(root), typed, [sub.name]);
    var n := FindSubFindsFirst(w.cmd.subs, sub.name);
    assert FindSub(w.cmd.subs, sub.name).Some? && n == k;
    assert current == "" || current[0] == sub.name[0];
    SubNamesIff(w.cmd.subs, sub.name);
    var positionals := Positionals(w.cmd.args);
    var offered :=
      if w.filled < |positionals| then SubNames(w.cmd.subs) + values(w.path, positionals[w.filled]).candidates
      else SubNames(w.cmd.subs);
    KeepingKeeps(offered, current, sub.name);
  }

  /** Behind `--`: `app` is offered all the same, and accepting it stays at the root with a positional filled. */
  lemma OfferedBehindDashesExample(values: Values)
    ensures var root := Cmd("asc", [], false, [], [Cmd("app", [], false, [], [])]);
      && "app" in ReplyAt(WalkAll(Start(root), ["--"]), "a", values).candidates
      && WalkAll(Start(root), ["--", "app"]) == Walk(root, ["asc"], 1, None, true)
  {
    var root := Cmd("asc", [], false, [], [Cmd("app", [], false, [], [])]);
    assert ["--"][1..] == [] && ["--", "app"][1..] == ["app"] && ["app"][1..] == [];
    var w := WalkAll(Start(root), ["--"]);
    assert w == Walk(root, ["asc"], 0, None, true);
    assert StartsWith("app", "a") && WellNamed(root);
    OfferedSubcommandIff(root, ["--"], "a", values, 0);
    var one := Advance(Start(root), "--");
    assert WalkAll(one, ["app"]) == WalkAll(Advance(one, "app"), []);
  }
}
