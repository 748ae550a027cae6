/** The fallback getopt of the tools: a scanner over the arguments whose state is global. */
module Getopt {
  import opened Collections

  const UNKNOWN: char := '?'
  const MISSING: char := ':'

  /** What a call returns: the end of the options, or the character of an option, or a mark. */
  datatype Answer = End | Code(c: char)

  /** A word of options: it starts with one marker. A bare marker is none. */
  predicate IsGroup(word: string) {
    |word| >= 2 && word[0] == '-' && word[1] != '-'
  }

  predicate IsBareMarker(word: string) {
    word == "-"
  }

  predicate EndsOptions(word: string) {
    |word| >= 2 && word[0] == '-' && word[1] == '-'
  }

  /** The first place of a character. */
  function Find(options: string, c: char): (i: Option<nat>)
    ensures i.Some? ==> i.value < |options| && options[i.value] == c
    ensures i.None? ==> c !in options
  {
    if options == "" then None
    else if options[0] == c then Some(0)
    else if Find(options[1..], c).Some? then Some(Find(options[1..], c).value + 1)
    else None
  }

  predicate IsKnown(options: string, c: char) {
    c != ':' && Find(options, c).Some?
  }

  /** The option is followed by a colon in the options string. */
  predicate TakesArgument(options: string, c: char)
    requires IsKnown(options, c)
  {
    var i := Find(options, c).value;
    i + 1 < |options| && options[i + 1] == ':'
  }

  // ---------- One option, as the conventions describe it ----------

  /** What the first option of a group is, and where the next one is looked for: in the rest of the
      group, or, when that is empty, at an argument. An option is accepted unless it is unknown or
      lacks its argument. */
  datatype Found = Found(accepted: bool, code: char, argument: Option<string>, next: nat, rest: string)

  /** The first option of the group g of argument i. */
  function FirstOption(arguments: seq<string>, options: string, i: nat, g: string): Found
    requires g != ""
  {
    var c, rest := g[0], g[1..];
    if !IsKnown(options, c) then Found(false, UNKNOWN, None, if rest == "" then i + 1 else i, "")
    else if !TakesArgument(options, c) then Found(true, c, None, if rest == "" then i + 1 else i, rest)
    else if rest != "" then Found(true, c, Some(rest), i + 1, "")
    else if i + 1 < |arguments| then Found(true, c, Some(arguments[i + 1]), i + 2, "")
    else Found(false, MISSING, None, i + 1, "")
  }

  // ---------- The scanner ----------

  class Scanner {
    var optind: nat
    var optarg: Option<string>
    var optopt: char
    var nextOption: Option<string>

    constructor ()
      ensures optind == 1 && optarg == None && nextOption == None && optopt == '\0'
    {
      optind, optarg, optopt, nextOption := 1, None, '\0', None;
    }

    /** The rest of a group that is left over is not empty, and the current argument holds it. */
    predicate Valid(arguments: seq<string>)
      reads this
    {
      nextOption.Some? ==> nextOption.value != "" && optind < |arguments|
    }

    /** The rest of a group that is left over. */
    function Pending(): string
      reads this
    {
      if nextOption.Some? then nextOption.value else ""
    }

    /** The group that the next call looks at; empty at the end of the options. */
    function Group(arguments: seq<string>): string
      reads this
    {
      if nextOption.Some? then nextOption.value
      else if optind < |arguments| && IsGroup(arguments[optind]) then arguments[optind][1..]
      else ""
    }

    /** The argument that the next call looks at is a marker without any option. */
    predicate AtBareMarker(arguments: seq<string>)
      reads this
    {
      nextOption.None? && optind < |arguments| && IsBareMarker(arguments[optind])
    }

    /** One call. A bare marker has no option character: its terminator is taken for one that is
        unknown, and what stands in memory behind it for the rest of the group. */
    method Next(arguments: seq<string>, options: string, past: char) returns (answer: Answer)
      requires Valid(arguments)
      modifies this
      ensures Valid(arguments)
      ensures old(AtBareMarker(arguments)) ==>
                && answer == Code(UNKNOWN) && nextOption == None && optarg == old(optarg) && optopt == '\0'
                && optind == old(optind) + if past == '\0' then 1 else 0
      ensures old(Group(arguments)) == "" && !old(AtBareMarker(arguments)) ==>
                && answer == End && nextOption == None && optarg == old(optarg) && optopt == old(optopt)
                && optind == old(optind) + if old(optind) < |arguments|
                  && EndsOptions(arguments[old(optind)]) then 1 else 0
      ensures old(Group(arguments)) != "" ==>
                var found := FirstOption(arguments, options, old(optind), old(Group(arguments)));
                && answer == Code(found.code) && optind == found.next && Pending() == found.rest
                && optopt == old(Group(arguments))[0]
                && optarg == if found.accepted then found.argument else old(optarg)
    {
      var argumentValue: string;
      if nextOption != None {
        argumentValue := nextOption.value;
        nextOption := None;
      } else if optind >= |arguments| {
        return End;
      } else {
        argumentValue := arguments[optind];
        if argumentValue == "" {
          return End;
        }
        if argumentValue[0] != '-' {
          return End;
        }
        argumentValue := argumentValue[1..];
        if argumentValue != "" && argumentValue[0] == '-' {
          optind := optind + 1;
          return End;
        }
      }
      if argumentValue == "" {
        optopt := '\0';
        if past == '\0' {
          optind := optind + 1;
        }
        return Code(UNKNOWN);
      }
      optopt := argumentValue[0];
      var optionValue := Find(options, optopt);
      argumentValue := argumentValue[1..];
      if optopt == ':' || optionValue == None {
        if argumentValue == "" {
          optind := optind + 1;
        }
        return Code(UNKNOWN);
      }
      var behind := optionValue.value + 1;
      if behind >= |options| || options[behind] != ':' {
        optarg := None;
        if argumentValue == "" {
          optind := optind + 1;
        } else {
          nextOption := Some(argumentValue);
        }
      } else if argumentValue != "" {
        optarg := Some(argumentValue);
        optind := optind + 1;
      } else {
        optind := optind + 1;
        if |arguments| <= optind {
          return Code(MISSING);
        }
        optarg := Some(arguments[optind]);
        optind := optind + 1;
      }
      answer := Code(optopt);
    }
  }

  // ---------- A whole run ----------

  /** An option that a run handled, or the mark that ended it. */
  datatype Event = Event(code: char, argument: Option<string>)

  /** The events of a run, and the argument at which it ended. */
  datatype Parsed = Parsed(events: seq<Event>, next: nat) {
    function Behind(front: seq<Event>): Parsed {
      Parsed(front + events, next)
    }
  }

  predicate IsMark(code: char) {
    code == UNKNOWN || code == MISSING
  }

  function EventOf(found: Found): Event {
    Event(found.code, if IsMark(found.code) then None else found.argument)
  }

  /** The left-to-right parse from the group g of argument i, or from argument i if g is empty. A bare
      marker ends it with the mark for an unknown option. */
  function ParseFrom(arguments: seq<string>, options: string, past: char, i: nat, g: string): Parsed
    requires g != "" ==> i < |arguments|
    decreases |arguments| - i, if g == "" then 1 else 0, |g|
  {
    if g != "" then
      var found := FirstOption(arguments, options, i, g);
      if IsMark(found.code) then Parsed([EventOf(found)], found.next)
      else ParseFrom(arguments, options, past, found.next, found.rest).Behind([EventOf(found)])
    else if i >= |arguments| then Parsed([], i)
    else if IsGroup(arguments[i]) then ParseFrom(arguments, options, past, i, arguments[i][1..])
    else if EndsOptions(arguments[i]) then Parsed([], i + 1)
    else if IsBareMarker(arguments[i]) then Parsed([Event(UNKNOWN, None)], if past == '\0' then i + 1 else i)
    else Parsed([], i)
  }

  lemma FoundAdvances(arguments: seq<string>, options: string, i: nat, g: string)
    requires g != "" && i < |arguments|
    ensures var found := FirstOption(arguments, options, i, g);
            && (found.rest == "" && !IsMark(found.code) ==> i < found.next <= |arguments|)
            && (found.rest != "" ==> found.next == i && found.rest == g[1..])
            && (!IsMark(found.code) ==> found.accepted)
  {
  }

  /** The loop of the tools: calls until the end of the options or a mark. The arguments left and the
      characters left in the group decrease with every call. */
  method Run(arguments: seq<string>, options: string, past: char) returns (parsed: Parsed)
    ensures parsed == ParseFrom(arguments, options, past, 1, "")
  {
    hide FirstOption;
    var scanner := new Scanner();
    var events: seq<Event> := [];
    ghost var all := ParseFrom(arguments, options, past, 1, "");
    BehindNothing(all);
    while true
      invariant scanner.Valid(arguments)
      invariant all == ParseFrom(arguments, options, past, scanner.optind, scanner.Pending()).Behind(events)
      decreases |arguments| - scanner.optind, if scanner.Pending() == "" then 1 else 0, |scanner.Pending()|
    {
      ghost var i, g := scanner.optind, scanner.Group(arguments);
      ghost var bare := scanner.AtBareMarker(arguments);
      var answer := scanner.Next(arguments, options, past);
      if answer == End {
        NothingBehind(events, scanner.optind);
        break;
      }
      if !bare {
        FoundAdvances(arguments, options, i, g);
      }
      var event := Event(answer.c, if IsMark(answer.c) then None else scanner.optarg);
      assert event == if bare then Event(UNKNOWN, None) else EventOf(FirstOption(arguments, options, i, g));
      if IsMark(answer.c) {
        events := events + [event];
        break;
      }
      BehindTwice(events, [event], ParseFrom(arguments, options, past, scanner.optind, scanner.Pending()));
      events := events + [event];
    }
    parsed := Parsed(events, scanner.optind);
  }

  lemma BehindNothing(parsed: Parsed)
    ensures parsed.Behind([]) == parsed
  {
    assert [] + parsed.events == parsed.events;
  }

  lemma NothingBehind(events: seq<Event>, i: nat)
    ensures Parsed([], i).Behind(events) == Parsed(events, i)
  {
    assert events + [] == events;
  }

  lemma BehindTwice(a: seq<Event>, b: seq<Event>, parsed: Parsed)
    ensures parsed.Behind(b).Behind(a) == parsed.Behind(a + b)
  {
    assert a + (b + parsed.events) == a + b + parsed.events;
  }

  // ---------- Arguments that were written from options ----------

  /** How a word of options ends: with a flag, or with an option and its argument. */
  datatype Last = NoArgument | Attached(option: char, argument: string) | Separate(option: char, argument: string)

  /** A group of flags and what ends it. */
  datatype Word = Word(flags: string, last: Last) {
    /** What stands behind the marker. */
    function Group(): string {
      match last
      case NoArgument => flags
      case Attached(option, argument) => flags + [option] + argument
      case Separate(option, _) => flags + [option]
    }

    ghost predicate Valid(options: string) {
      && (forall c | c in flags :: IsFlag(options, c))
      && Group() != "" && Group()[0] != '-'
      && match last
         case NoArgument => true
         case Attached(option, argument) => IsOption(options, option) && argument != ""
         case Separate(option, _) => IsOption(options, option)
    }

    function Render(): seq<string> {
      ["-" + Group()] + (if last.Separate? then [last.argument] else [])
    }

    /** The options that the word means. */
    function Events(): seq<Event> {
      Flags(flags) +
      match last
      case NoArgument => []
      case Attached(option, argument) => [Event(option, Some(argument))]
      case Separate(option, argument) => [Event(option, Some(argument))]
    }
  }

  /** The character stands at a place of the options, and nowhere in front of it. */
  predicate FirstAt(options: string, c: char, k: nat) {
    k < |options| && options[k] == c && c !in options[..k]
  }

  /** No colon follows the first place of the character. */
  ghost predicate IsFlag(options: string, c: char) {
    c != '?' && c != ':' && exists k: nat :: FirstAt(options, c, k) && (k + 1 == |options| || options[k + 1] != ':')
  }

  /** A colon follows the first place of the character. */
  ghost predicate IsOption(options: string, c: char) {
    c != '?' && c != ':' && exists k: nat :: FirstAt(options, c, k) && k + 1 < |options| && options[k + 1] == ':'
  }

  lemma {:induction false} FoundAtFirst(options: string, c: char, k: nat)
    requires FirstAt(options, c, k)
    ensures Find(options, c) == Some(k)
  {
    if k > 0 {
      assert options[0] in options[..k];
      assert options[1..][..k - 1] == options[..k][1..];
      FoundAtFirst(options[1..], c, k - 1);
    }
  }

  lemma FlagIsKnown(options: string, c: char)
    ensures IsFlag(options, c) ==> !IsMark(c) && IsKnown(options, c) && !TakesArgument(options, c)
    ensures IsOption(options, c) ==> !IsMark(c) && IsKnown(options, c) && TakesArgument(options, c)
  {
    hide Find;
    if IsFlag(options, c) {
      var k: nat :| FirstAt(options, c, k) && (k + 1 == |options| || options[k + 1] != ':');
      FoundAtFirst(options, c, k);
    }
    if IsOption(options, c) {
      var k: nat :| FirstAt(options, c, k) && k + 1 < |options| && options[k + 1] == ':';
      FoundAtFirst(options, c, k);
    }
  }

  /** The first option of a group, in terms of the options: one that stands at place k of them. */
  lemma KnownFirstOption(arguments: seq<string>, options: string, i: nat, g: string, k: nat)
    requires g != "" && g[0] != ':' && FirstAt(options, g[0], k)
    ensures var found := FirstOption(arguments, options, i, g);
            if k + 1 == |options| || options[k + 1] != ':' then
              found == Found(true, g[0], None, if |g| == 1 then i + 1 else i, g[1..])
            else if |g| > 1 then found == Found(true, g[0], Some(g[1..]), i + 1, "")
            else if i + 1 < |arguments| then found == Found(true, g[0], Some(arguments[i + 1]), i + 2, "")
            else found == Found(false, ':', None, i + 1, "")
  {
    hide Find;
    FoundAtFirst(options, g[0], k);
  }

  /** One that does not stand in the options, or is a colon. */
  lemma UnknownFirstOption(arguments: seq<string>, options: string, i: nat, g: string)
    requires g != "" && (g[0] == ':' || g[0] !in options)
    ensures FirstOption(arguments, options, i, g) == Found(false, '?', None, if |g| == 1 then i + 1 else i, "")
  {
    hide Find;
  }

  function Flags(flags: string): seq<Event> {
    if flags == "" then [] else [Event(flags[0], None)] + Flags(flags[1..])
  }

  function RenderAll(words: seq<Word>): seq<string> {
    if words == [] then [] else words[0].Render() + RenderAll(words[1..])
  }

  function AllEvents(words: seq<Word>): seq<Event> {
    if words == [] then [] else words[0].Events() + AllEvents(words[1..])
  }

  /** Flags in front of a rest are read one by one, without leaving the argument. */
  lemma {:induction false} FlagsAreRead(arguments: seq<string>, options: string, past: char, i: nat, flags: string,
                                        rest: string)
    requires i < |arguments| && forall c | c in flags :: IsFlag(options, c)
    requires rest != ""
    ensures ParseFrom(arguments, options, past, i, flags + rest) ==
            ParseFrom(arguments, options, past, i, rest).Behind(Flags(flags))
    decreases |flags|
  {
    hide IsKnown, TakesArgument, IsFlag;
    if flags == "" {
      assert "" + rest == rest;
      BehindNothing(ParseFrom(arguments, options, past, i, rest));
    } else {
      var g := flags + rest;
      assert g[0] == flags[0] && flags[0] in flags && g[1..] == flags[1..] + rest;
      FlagIsKnown(options, flags[0]);
      FlagsAreRead(arguments, options, past, i, flags[1..], rest);
      BehindTwice([Event(flags[0], None)], Flags(flags[1..]), ParseFrom(arguments, options, past, i, rest));
    }
  }

  /** A group of flags alone. */
  lemma FlagGroupIsRead(arguments: seq<string>, options: string, past: char, i: nat, flags: string)
    requires i < |arguments| && flags != "" && forall c | c in flags :: IsFlag(options, c)
    ensures ParseFrom(arguments, options, past, i, flags) ==
            ParseFrom(arguments, options, past, i + 1, "").Behind(Flags(flags))
  {
    hide IsKnown, TakesArgument, IsFlag;
    var n := |flags| - 1;
    var init, last := flags[..n], flags[n..];
    assert flags == init + last && last[0] in flags && last[1..] == "";
    FlagIsKnown(options, last[0]);
    FlagsAreRead(arguments, options, past, i, init, last);
    var event := Event(last[0], None);
    assert ParseFrom(arguments, options, past, i, last) ==
           ParseFrom(arguments, options, past, i + 1, "").Behind([event]);
    BehindTwice(Flags(init), [event], ParseFrom(arguments, options, past, i + 1, ""));
    FlagsSnoc(init, last[0]);
    assert last == [last[0]];
  }

  lemma {:induction false} FlagsSnoc(flags: string, c: char)
    ensures Flags(flags + [c]) == Flags(flags) + [Event(c, None)]
    decreases |flags|
  {
    if flags != "" {
      assert (flags + [c])[1..] == flags[1..] + [c];
      FlagsSnoc(flags[1..], c);
    } else {
      assert (flags + [c])[1..] == "";
    }
  }

  /** One written word is read as the options it means, and reading goes on behind it. */
  lemma WordIsRead(arguments: seq<string>, options: string, past: char, i: nat, word: Word)
    requires word.Valid(options)
    requires i + |word.Render()| <= |arguments| && arguments[i..i + |word.Render()|] == word.Render()
    ensures ParseFrom(arguments, options, past, i, "") ==
            ParseFrom(arguments, options, past, i + |word.Render()|, "").Behind(word.Events())
  {
    hide IsKnown, TakesArgument, IsFlag, IsOption, Flags;
    if !word.last.NoArgument? {
      FlagIsKnown(options, word.last.option);
    }
    var g, rendered := word.Group(), word.Render();
    assert arguments[i] == rendered[0] == "-" + g;
    assert arguments[i][1..] == g;
    assert arguments[i][1] == g[0];
    var next := ParseFrom(arguments, options, past, i + |rendered|, "");
    match word.last {
      case NoArgument =>
        FlagGroupIsRead(arguments, options, past, i, word.flags);
        assert word.Events() == Flags(word.flags);
      case Attached(option, argument) =>
        var rest := [option] + argument;
        assert g == word.flags + rest && rest[1..] == argument;
        FlagsAreRead(arguments, options, past, i, word.flags, rest);
        BehindTwice(Flags(word.flags), [Event(option, Some(argument))], next);
      case Separate(option, argument) =>
        var rest := [option];
        assert g == word.flags + rest && rest[1..] == "";
        assert arguments[i + 1] == rendered[1] == argument;
        FlagsAreRead(arguments, options, past, i, word.flags, rest);
        BehindTwice(Flags(word.flags), [Event(option, Some(argument))], next);
    }
  }

  /** An unknown option behind any flags of a group ends the run; the rest of the group is dropped. */
  lemma UnknownOptionEndsTheRun(arguments: seq<string>, options: string, past: char, i: nat, flags: string, c: char,
                                rest: string)
    requires i < |arguments| && (forall f | f in flags :: IsFlag(options, f))
    requires (c == ':' || c !in options) && arguments[i] == "-" + (flags + ([c] + rest)) && (flags + [c])[0] != '-'
    ensures ParseFrom(arguments, options, past, i, "") ==
            Parsed(Flags(flags) + [Event('?', None)], if rest == "" then i + 1 else i)
  {
    hide IsFlag, IsKnown, TakesArgument, FirstOption, Flags;
    var group := [c] + rest;
    assert arguments[i][1..] == flags + group && arguments[i][1] == (flags + [c])[0];
    FlagsAreRead(arguments, options, past, i, flags, group);
    UnknownFirstOption(arguments, options, i, group);
  }

  /** An option at the end of the last argument that lacks its argument ends the run, too. */
  lemma MissingArgumentEndsTheRun(arguments: seq<string>, options: string, past: char, i: nat, flags: string,
                                  option: char)
    requires i + 1 == |arguments| && (forall f | f in flags :: IsFlag(options, f))
    requires IsOption(options, option) && arguments[i] == "-" + (flags + [option]) && (flags + [option])[0] != '-'
    ensures ParseFrom(arguments, options, past, i, "") == Parsed(Flags(flags) + [Event(':', None)], |arguments|)
  {
    hide IsFlag, IsKnown, TakesArgument, FirstOption, Flags;
    assert arguments[i][1..] == flags + [option] && arguments[i][1] == (flags + [option])[0];
    FlagsAreRead(arguments, options, past, i, flags, [option]);
    var k: nat :| FirstAt(options, option, k) && k + 1 < |options| && options[k + 1] == ':';
    KnownFirstOption(arguments, options, i, [option], k);
  }

  lemma {:induction false} WordsAreRead(arguments: seq<string>, options: string, past: char, i: nat, words: seq<Word>)
    requires forall word | word in words :: word.Valid(options)
    requires i + |RenderAll(words)| <= |arguments| && arguments[i..i + |RenderAll(words)|] == RenderAll(words)
    ensures ParseFrom(arguments, options, past, i, "") ==
            ParseFrom(arguments, options, past, i + |RenderAll(words)|, "").Behind(AllEvents(words))
    decreases |words|
  {
    hide ParseFrom, Word.Valid, Word.Render, Word.Events;
    if words == [] {
      BehindNothing(ParseFrom(arguments, options, past, i, ""));
    } else {
      var word := words[0];
      var first, rest := word.Render(), RenderAll(words[1..]);
      var whole := arguments[i..i + |first + rest|];
      assert whole[..|first|] == first && whole[|first|..] == rest;
      assert arguments[i..i + |first|] == whole[..|first|];
      assert arguments[i + |first|..i + |first| + |rest|] == whole[|first|..];
      WordIsRead(arguments, options, past, i, word);
      WordsAreRead(arguments, options, past, i + |first|, words[1..]);
      BehindTwice(word.Events(), AllEvents(words[1..]),
        ParseFrom(arguments, options, past, i + |RenderAll(words)|, ""));
    }
  }

  /** A command line written from any words of options, then operands, is read as exactly those
      options, up to the first operand and behind the end-of-options marker if there is one. The one
      exception is a bare marker as the first operand, without an end-of-options marker in front. */
  lemma WrittenCommandLineIsRead(program: string, options: string, past: char, words: seq<Word>,
                                 operands: seq<string>, marker: Option<string>)
    requires forall word | word in words :: word.Valid(options)
    requires marker.Some? ==> |marker.value| >= 2 && marker.value[..2] == "--"
    requires marker.None? && operands != [] ==> operands[0] == "" || operands[0][0] != '-' || operands[0] == "-"
    ensures var front := [program] + RenderAll(words) + (if marker.Some? then [marker.value] else []);
            ParseFrom(front + operands, options, past, 1, "") == Parsed(AllEvents(words), |front|) <==>
            !(marker.None? && operands != [] && operands[0] == "-")
  {
    hide RenderAll, Word.Valid, AllEvents;
    var tail := (if marker.Some? then [marker.value] else []) + operands;
    var arguments := [program] + RenderAll(words) + tail;
    assert arguments == [program] + RenderAll(words) + (if marker.Some? then [marker.value] else []) + operands;
    var n := 1 + |RenderAll(words)|;
    assert arguments[1..n] == RenderAll(words);
    WordsAreRead(arguments, options, past, 1, words);
    assert tail != [] ==> arguments[n] == tail[0];
    if marker.None? && operands != [] && IsBareMarker(operands[0]) {
      assert ParseFrom(arguments, options, past, n, "").events == [Event(UNKNOWN, None)];
      assert |AllEvents(words) + [Event(UNKNOWN, None)]| == |AllEvents(words)| + 1;
    } else {
      var end := if marker.Some? then n + 1 else n;
      assert ParseFrom(arguments, options, past, n, "") == Parsed([], end);
      NothingBehind(AllEvents(words), end);
    }
  }

  /** A marker alone, which stands for an operand, is reported as an unknown option. */
  lemma BareMarkerIsUnknown(program: string, options: string, past: char)
    ensures ParseFrom([program, "-"], options, past, 1, "") == Parsed([Event('?', None)], if past == '\0' then 2 else 1)
  {
  }
}
