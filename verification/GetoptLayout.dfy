/**
 The law from options to command lines: what a caller writes, in any of the usual
 forms, and what the scanner then reports of it.
 */
module GetoptLayout {

  import opened GetoptSpec
  import opened Sequences
  import opened Wrappers

  // ---------------------------------------------------------------- what the option string declares

  /** A letter and whether it takes an argument, or the letter that takes a long option (`W;`). */
  datatype Letter = Letter(c: char, arg: HasArg) | LongLetter

  function LetterOf(d: Letter): char {
    if d.LongLetter? then 'W' else d.c
  }

  function MarkOf(d: Letter): string {
    match d
    case Letter(_, NoArgument) => ""
    case Letter(_, RequiredArgument) => ":"
    case Letter(_, OptionalArgument) => "::"
    case LongLetter => ";"
  }

  function LettersText(ds: seq<Letter>): string {
    if ds == [] then "" else [LetterOf(ds[0])] + MarkOf(ds[0]) + LettersText(ds[1..])
  }

  ghost predicate AreLetters(ds: seq<Letter>) {
    forall i :: 0 <= i < |ds| ==> LetterOf(ds[i]) != ':' && LetterOf(ds[i]) != ';'
  }

  /** The option string declares these letters; a colon in front asks for silence. */
  ghost predicate Declares(cfg: Config, silent: bool, ds: seq<Letter>) {
    AreLetters(ds) && cfg.Letters() == (if silent then ":" else "") + LettersText(ds)
  }

  datatype Meaning = Unknown | Flag | Argument(optional: bool) | LongName

  /** The first declaration of a letter counts. */
  function MeaningOf(ds: seq<Letter>, c: char, long: bool): Meaning {
    if ds == [] then Unknown
    else if LetterOf(ds[0]) != c then MeaningOf(ds[1..], c, long)
    else match ds[0]
      case Letter(_, NoArgument) => Flag
      case Letter(_, RequiredArgument) => Argument(false)
      case Letter(_, OptionalArgument) => Argument(true)
      case LongLetter => if long then LongName else Flag
  }

  /** The letter found at that place of the option string has this meaning. */
  predicate MeansAt(letters: string, j: nat, c: char, long: bool, m: Meaning) {
    && (m.Unknown? <==> j >= |letters|)
    && (m.Argument? <==> At(letters, j + 1, ':'))
    && (m.Argument? ==> (m.optional <==> At(letters, j + 2, ':')))
    && (m.LongName? <==> c == 'W' && At(letters, j + 1, ';') && long)
  }

  lemma {:induction false} IndexBehind(front: string, rest: string, c: char)
    requires c !in front
    ensures Index(front + rest, c) == |front| + Index(rest, c)
  {
    if front == "" {
      assert front + rest == rest;
    } else {
      IndexBehind(front[1..], rest, c);
      assert (front + rest)[1..] == front[1..] + rest;
    }
  }

  lemma AtBehind(front: string, rest: string, j: nat, k: nat, c: char)
    requires k == |front| + j
    ensures At(front + rest, k, c) == At(rest, j, c)
  {
  }

  lemma MeansBehind(front: string, rest: string, j: nat, k: nat, c: char, long: bool, m: Meaning)
    requires MeansAt(rest, j, c, long, m) && k == |front| + j
    ensures MeansAt(front + rest, k, c, long, m)
  {
    AtBehind(front, rest, j + 1, k + 1, ':');
    AtBehind(front, rest, j + 2, k + 2, ':');
    AtBehind(front, rest, j + 1, k + 1, ';');
  }

  lemma FirstDeclared(ds: seq<Letter>, long: bool)
    requires ds != [] && AreLetters(ds)
    ensures MeansAt(LettersText(ds), 0, LetterOf(ds[0]), long, MeaningOf(ds, LetterOf(ds[0]), long))
  {
    var rest := LettersText(ds[1..]);
    if ds[1..] != [] {
      assert LetterOf(ds[1..][0]) == LetterOf(ds[1]);
      assert rest[0] == LetterOf(ds[1]);
    }
    assert LettersText(ds) == [LetterOf(ds[0])] + MarkOf(ds[0]) + rest;
  }

  lemma {:induction false} DeclaredAt(ds: seq<Letter>, c: char, long: bool)
    requires AreLetters(ds) && c != ':' && c != ';'
    ensures MeansAt(LettersText(ds), Index(LettersText(ds), c), c, long, MeaningOf(ds, c, long))
    decreases |ds|
  {
    if ds == [] {
    } else if LetterOf(ds[0]) == c {
      FirstDeclared(ds, long);
    } else {
      var front, rest := [LetterOf(ds[0])] + MarkOf(ds[0]), LettersText(ds[1..]);
      DeclaredAt(ds[1..], c, long);
      IndexBehind(front, rest, c);
      MeansBehind(front, rest, Index(rest, c), Index(front + rest, c), c, long, MeaningOf(ds, c, long));
    }
  }

  lemma {:induction false} SeparatorsMeanNothing(ds: seq<Letter>, c: char, long: bool)
    requires AreLetters(ds) && (c == ':' || c == ';')
    ensures MeaningOf(ds, c, long) == Unknown
    decreases |ds|
  {
    if ds != [] {
      SeparatorsMeanNothing(ds[1..], c, long);
    }
  }

  /** What the scanner finds of a letter is what it was declared as. */
  lemma LetterMeans(cfg: Config, silent: bool, ds: seq<Letter>, c: char, long: bool)
    requires Declares(cfg, silent, ds)
    ensures var m := MeaningOf(ds, c, long);
            if c == ':' || c == ';' then m == Unknown else MeansAt(cfg.Letters(), Index(cfg.Letters(), c), c, long, m)
  {
    hide AreLetters, MeansAt;
    if c == ':' || c == ';' {
      SeparatorsMeanNothing(ds, c, long);
    } else {
      var front, rest := if silent then ":" else "", LettersText(ds);
      DeclaredAt(ds, c, long);
      IndexBehind(front, rest, c);
      MeansBehind(front, rest, Index(rest, c), Index(front + rest, c), c, long, MeaningOf(ds, c, long));
    }
  }

  function MissingCode(silent: bool): int {
    if silent then ':' as int else '?' as int
  }

  lemma MissingIs(cfg: Config, silent: bool, ds: seq<Letter>)
    requires Declares(cfg, silent, ds)
    ensures cfg.Missing() == MissingCode(silent)
  {
  }

  // ---------------------------------------------------------------- what a long name stands for

  ghost predicate IsExact(opts: seq<LongOption>, name: string, i: nat) {
    i < |opts| && opts[i].name == name && forall j :: 0 <= j < i ==> opts[j].name != name
  }

  ghost predicate IsFirstPrefix(opts: seq<LongOption>, name: string, i: nat) {
    i < |opts| && name <= opts[i].name && forall j :: 0 <= j < i ==> !(name <= opts[j].name)
  }

  ghost predicate NoneIsExact(opts: seq<LongOption>, name: string) {
    forall j :: 0 <= j < |opts| ==> opts[j].name != name
  }

  /** Another option that the abbreviation could stand for as well: it differs in more than its name. */
  ghost predicate IsRival(opts: seq<LongOption>, name: string, longOnly: bool, i: nat, j: nat) {
    i < j < |opts| && name <= opts[j].name && (longOnly || opts[j] != opts[i].(name := opts[j].name))
  }

  ghost predicate Stands(opts: seq<LongOption>, name: string, longOnly: bool, m: Match) {
    match m
    case Unique(i) =>
      || IsExact(opts, name, i)
      || (NoneIsExact(opts, name) && IsFirstPrefix(opts, name, i) && forall j :: !IsRival(opts, name, longOnly, i, j))
    case Ambiguous =>
      NoneIsExact(opts, name) && exists i, j :: IsFirstPrefix(opts, name, i) && IsRival(opts, name, longOnly, i, j)
    case NoMatch => forall j :: 0 <= j < |opts| ==> !(name <= opts[j].name)
  }

  lemma MatchIs(opts: seq<LongOption>, name: string, longOnly: bool, m: Match)
    requires Stands(opts, name, longOnly, m)
    ensures MatchLong(opts, name, longOnly) == m
  {
    var exact := First(opts, (o: LongOption) => o.name == name);
    var prefix := First(opts, (o: LongOption) => name <= o.name);
    if exact.Some? {
      assert name <= opts[exact.value].name;
    } else if prefix.Some? {
      var i := prefix.value;
      forall j ensures Clashes(opts, name, longOnly, i, j) <==> IsRival(opts, name, longOnly, i, j) {
      }
    }
  }

  // ---------------------------------------------------------------- what is written

  /** A long option: the name, what it stands for, and its argument behind `=` or in the next element. */
  datatype LongUse = LongUse(name: string, m: Match, value: Value)

  datatype Value = NoValue | Joined(arg: string) | Apart(arg: string)

  function LongText(u: LongUse): string {
    u.name + if u.value.Joined? then "=" + u.value.arg else ""
  }

  function LongMore(u: LongUse): seq<string> {
    if u.value.Apart? then [u.value.arg] else []
  }

  /**
   An argument in the next element is one that is required; where a required argument
   is missing, nothing follows.
   */
  ghost predicate IsUse(opts: seq<LongOption>, u: LongUse, longOnly: bool, last: bool) {
    && '=' !in u.name && Stands(opts, u.name, longOnly, u.m)
    && match u.m
       case Unique(i) =>
         && i < |opts| && (u.value.Apart? ==> opts[i].hasArg.RequiredArgument?)
         && (u.value.NoValue? && opts[i].hasArg.RequiredArgument? ==> last)
       case Ambiguous => !u.value.Apart?
       case NoMatch => !u.value.Apart?
  }

  function Refused(code: int, optopt: int): Outcome {
    Outcome(code, None, Some(optopt), None, None)
  }

  /** What is reported of a long option; one with a flag stores its value there. */
  function LongOutcome(opts: seq<LongOption>, u: LongUse, silent: bool): Outcome {
    if !u.m.Unique? || u.m.index >= |opts| then Refused('?' as int, 0)
    else
      var o := opts[u.m.index];
      if u.value.Joined? && o.hasArg.NoArgument? then Refused('?' as int, o.val)
      else if u.value.NoValue? && o.hasArg.RequiredArgument? then Refused(MissingCode(silent), o.val)
      else
        var arg := if u.value.NoValue? then None else Some(u.value.arg);
        if o.flag.Some? then Outcome(0, arg, None, Some(u.m.index), Some((o.flag.value, o.val)))
        else Outcome(o.val, arg, None, Some(u.m.index), None)
  }

  lemma NameEndIs(name: string, u: LongUse)
    requires name == u.name && '=' !in name
    ensures var n := NameEnd(LongText(u));
            n == |name| && LongText(u)[..n] == name && (n < |LongText(u)| <==> u.value.Joined?)
    ensures u.value.Joined? ==> LongText(u)[|name| + 1..] == u.value.arg
  {
    var t := LongText(u);
    var n := NameEnd(t);
    assert t[..|name|] == name;
    if u.value.Joined? {
      assert t[|name|] == '=';
    }
    forall k | 0 <= k < |name| ensures t[k] != '=' {
      assert t[k] == name[k] && name[k] in name;
    }
    forall k | 0 <= k < n ensures t[k] != '=' {
      assert t[..n][k] == t[k];
    }
  }

  /** A long option is read as it is meant. */
  lemma LongRead(cfg: Config, silent: bool, ds: seq<Letter>, u: LongUse, longOnly: bool, todo: seq<string>)
    requires cfg.longopts.Some? && Declares(cfg, silent, ds) && todo != [] && LongMore(u) <= todo[1..]
    requires IsUse(cfg.longopts.value, u, longOnly, |todo| == 1)
    requires longOnly && u.m.NoMatch? ==>
               (|todo[0]| > 1 && todo[0][1] == '-') || (LongText(u) != "" && LongText(u)[0] !in cfg.Letters())
    ensures TakeLong(cfg, LongText(u), todo, longOnly) ==
            Some(Taken(LongOutcome(cfg.longopts.value, u, silent), 1 + |LongMore(u)|, ""))
  {
    hide Stands, Declares, NameEnd, MatchLong;
    MissingIs(cfg, silent, ds);
    NameEndIs(u.name, u);
    MatchIs(cfg.longopts.value, u.name, longOnly, u.m);
  }

  // ---------------------------------------------------------------- clusters of letters

  /**
   How a cluster ends: with a letter that takes no argument, with one whose argument is
   attached, in the next element, left out or missing, or with the letter that takes a
   long option.
   */
  datatype Tail = Bare | Attached(c: char, arg: string) | Separate(c: char, arg: string) | Without(c: char)
                | Lacking(c: char) | LongAttached(u: LongUse) | LongSeparate(u: LongUse) | LongLacking

  function TailText(t: Tail): string {
    match t
    case Bare => ""
    case Attached(c, arg) => [c] + arg
    case Separate(c, _) => [c]
    case Without(c) => [c]
    case Lacking(c) => [c]
    case LongAttached(u) => "W" + LongText(u)
    case LongSeparate(_) => "W"
    case LongLacking => "W"
  }

  function TailMore(t: Tail): seq<string> {
    match t
    case Separate(_, arg) => [arg]
    case LongAttached(u) => LongMore(u)
    case LongSeparate(u) => [LongText(u)] + LongMore(u)
    case _ => []
  }

  ghost predicate IsTail(cfg: Config, ds: seq<Letter>, t: Tail, last: bool) {
    var long := cfg.longopts.Some?;
    match t
    case Bare => true
    case Attached(c, arg) => MeaningOf(ds, c, long).Argument? && arg != ""
    case Separate(c, _) => MeaningOf(ds, c, long) == Argument(false)
    case Without(c) => MeaningOf(ds, c, long) == Argument(true)
    case Lacking(c) => MeaningOf(ds, c, long) == Argument(false) && last
    case LongAttached(u) =>
      long && MeaningOf(ds, 'W', long).LongName? && LongText(u) != "" && IsUse(cfg.longopts.value, u, false, last)
    case LongSeparate(u) =>
      long && MeaningOf(ds, 'W', long).LongName? && IsUse(cfg.longopts.value, u, false, last)
    case LongLacking => long && MeaningOf(ds, 'W', long).LongName? && last
  }

  function LetterOutcome(c: char, arg: Option<string>): Outcome {
    Outcome(c as int, arg, None, None, None)
  }

  function Options(cfg: Config): seq<LongOption> {
    if cfg.longopts.Some? then cfg.longopts.value else []
  }

  function TailOutcomes(cfg: Config, silent: bool, t: Tail): seq<Outcome> {
    match t
    case Bare => []
    case Attached(c, arg) => [LetterOutcome(c, Some(arg))]
    case Separate(c, arg) => [LetterOutcome(c, Some(arg))]
    case Without(c) => [LetterOutcome(c, None)]
    case Lacking(c) => [Refused(MissingCode(silent), c as int)]
    case LongAttached(u) => [LongOutcome(Options(cfg), u, silent)]
    case LongSeparate(u) => [LongOutcome(Options(cfg), u, silent)]
    case LongLacking => [Refused(MissingCode(silent), 'W' as int)]
  }

  ghost predicate IsFlag(ds: seq<Letter>, c: char, long: bool) {
    MeaningOf(ds, c, long).Flag? || MeaningOf(ds, c, long).Unknown?
  }

  function FlagOutcome(ds: seq<Letter>, c: char, long: bool): Outcome {
    if MeaningOf(ds, c, long).Unknown? then Refused('?' as int, c as int) else LetterOutcome(c, None)
  }

  function FlagOutcomes(ds: seq<Letter>, flags: string, long: bool): seq<Outcome> {
    if flags == "" then [] else [FlagOutcome(ds, flags[0], long)] + FlagOutcomes(ds, flags[1..], long)
  }

  /** The scan when `cluster` is what is left of the element. */
  function Left(kept: seq<string>, skipped: seq<string>, todo: seq<string>, cluster: string): Scan
    requires todo != []
  {
    if cluster == "" then Scan(kept + [todo[0]], skipped, todo[1..], "") else Scan(kept, skipped, todo, cluster)
  }

  lemma AdvanceNone(kept: seq<string>, skipped: seq<string>, todo: seq<string>, cluster: string, t: Taken)
    requires todo != [] && t.used == 0
    ensures Advance(Scan(kept, skipped, todo, cluster), t) == Scan(kept, skipped, todo, t.cluster)
  {
    assert todo[..0] == [] && todo[0..] == todo && kept + [] == kept;
  }

  lemma AdvanceSome(kept: seq<string>, skipped: seq<string>, front: seq<string>, more: seq<string>, cluster: string,
                    t: Taken)
    requires t.used == |front| && t.cluster == ""
    ensures Advance(Scan(kept, skipped, front + more, cluster), t) == Scan(kept + front, skipped, more, "")
  {
    assert (front + more)[..|front|] == front && (front + more)[|front|..] == more;
  }

  lemma FlagRead(cfg: Config, silent: bool, ds: seq<Letter>, c: char, rest: string, cluster: string, kept: seq<string>,
                 skipped: seq<string>, todo: seq<string>)
    requires Declares(cfg, silent, ds) && IsFlag(ds, c, cfg.longopts.Some?) && todo != [] && cluster == [c] + rest
    ensures RefNext(cfg, Scan(kept, skipped, todo, cluster)) ==
            (Left(kept, skipped, todo, rest), Some(FlagOutcome(ds, c, cfg.longopts.Some?)))
  {
    hide Declares, MeaningOf, StepOver, AtElement, TakeLong;
    LetterMeans(cfg, silent, ds, c, cfg.longopts.Some?);
    assert cluster[1..] == rest;
    var t := TakeShort(cfg, cluster, todo);
    if rest == "" {
      assert [todo[0]] + todo[1..] == todo;
      AdvanceSome(kept, skipped, [todo[0]], todo[1..], cluster, t);
    } else {
      AdvanceNone(kept, skipped, todo, cluster, t);
    }
  }

  function More(outs: seq<Outcome>, r: (Scan, seq<Outcome>)): (Scan, seq<Outcome>) {
    (r.0, outs + r.1)
  }

  lemma RunOne(cfg: Config, s: Scan, s': Scan, out: Outcome)
    requires WellFormed(s) && WellFormed(s') && RefNext(cfg, s) == (s', Some(out))
    ensures RefRun(cfg, s) == More([out], RefRun(cfg, s'))
  {
  }

  lemma MoreMore(a: seq<Outcome>, b: seq<Outcome>, r: (Scan, seq<Outcome>))
    ensures More(a, More(b, r)) == More(a + b, r)
  {
    Associative(a, b, r.1);
  }

  lemma MoreNone(r: (Scan, seq<Outcome>))
    ensures More([], r) == r
  {
    assert [] + r.1 == r.1;
  }

  /** The letters without an argument are reported one by one. */
  lemma {:induction false} FlagsRun(cfg: Config, silent: bool, ds: seq<Letter>, flags: string, tail: string,
                                    kept: seq<string>, skipped: seq<string>, todo: seq<string>)
    requires Declares(cfg, silent, ds) && todo != [] && flags + tail != ""
    requires forall c <- flags :: IsFlag(ds, c, cfg.longopts.Some?)
    ensures RefRun(cfg, Scan(kept, skipped, todo, flags + tail)) ==
            More(FlagOutcomes(ds, flags, cfg.longopts.Some?),
                 RefRun(cfg, if flags == "" then Scan(kept, skipped, todo, tail) else Left(kept, skipped, todo, tail)))
    decreases |flags|
  {
    hide Declares, IsFlag, RefRun, FlagOutcome, RefNext;
    if flags == "" {
      assert flags + tail == tail;
      MoreNone(RefRun(cfg, Scan(kept, skipped, todo, tail)));
    } else {
      var c, rest, long := flags[0], flags[1..], cfg.longopts.Some?;
      assert flags + tail == [c] + (rest + tail);
      FlagRead(cfg, silent, ds, c, rest + tail, flags + tail, kept, skipped, todo);
      RunOne(cfg, Scan(kept, skipped, todo, flags + tail), Left(kept, skipped, todo, rest + tail),
             FlagOutcome(ds, c, long));
      if rest + tail != "" {
        FlagsRun(cfg, silent, ds, rest, tail, kept, skipped, todo);
        var s := if rest == "" then Scan(kept, skipped, todo, tail) else Left(kept, skipped, todo, tail);
        MoreMore([FlagOutcome(ds, c, long)], FlagOutcomes(ds, rest, long), RefRun(cfg, s));
      } else {
        assert FlagOutcomes(ds, flags, long) == [FlagOutcome(ds, c, long)];
      }
    }
  }

  lemma LetterTailRead(cfg: Config, silent: bool, ds: seq<Letter>, t: Tail, element: string, more: seq<string>,
                       todo: seq<string>)
    requires Declares(cfg, silent, ds) && IsTail(cfg, ds, t, more == []) && todo == [element] + TailMore(t) + more
    requires t.Attached? || t.Separate? || t.Without? || t.Lacking?
    ensures TakeShort(cfg, TailText(t), todo) == Taken(TailOutcomes(cfg, silent, t)[0], 1 + |TailMore(t)|, "")
  {
    hide Declares, MeaningOf, TakeLong, Index, LongMore, LongText, LongOutcome;
    LetterMeans(cfg, silent, ds, t.c, cfg.longopts.Some?);
    MissingIs(cfg, silent, ds);
    assert TailText(t)[1..] == if t.Attached? then t.arg else "";
  }

  /** The letter `W`, where it takes a long option. */
  lemma LongLetterRead(cfg: Config, silent: bool, ds: seq<Letter>, text: string, rest: string, todo: seq<string>)
    requires Declares(cfg, silent, ds) && MeaningOf(ds, 'W', true).LongName? && cfg.longopts.Some?
    requires todo != [] && text == "W" + rest
    ensures TakeShort(cfg, text, todo) ==
            if rest != "" then TakeLong(cfg, rest, todo, false).value
            else if |todo| == 1 then Taken(Refused(MissingCode(silent), 'W' as int), 1, "")
            else
              var t := TakeLong(cfg, todo[1], todo[1..], false).value;
              t.(used := t.used + 1)
  {
    hide Declares, MeaningOf, TakeLong, Index;
    LetterMeans(cfg, silent, ds, 'W', true);
    MissingIs(cfg, silent, ds);
    assert text[1..] == rest;
  }

  lemma LongTailRead(cfg: Config, silent: bool, ds: seq<Letter>, t: Tail, element: string, more: seq<string>,
                     todo: seq<string>)
    requires Declares(cfg, silent, ds) && IsTail(cfg, ds, t, more == []) && todo == [element] + TailMore(t) + more
    requires t.LongAttached? || t.LongSeparate? || t.LongLacking?
    ensures TakeShort(cfg, TailText(t), todo) == Taken(TailOutcomes(cfg, silent, t)[0], 1 + |TailMore(t)|, "")
  {
    hide Declares, MeaningOf, TakeLong, TakeShort, LongOutcome, Stands, LongText;
    match t {
      case LongAttached(u) =>
        LongLetterRead(cfg, silent, ds, TailText(t), LongText(u), todo);
        LongRead(cfg, silent, ds, u, false, todo);
      case LongSeparate(u) =>
        LongLetterRead(cfg, silent, ds, TailText(t), "", todo);
        assert todo[1..] == [LongText(u)] + LongMore(u) + more;
        LongRead(cfg, silent, ds, u, false, todo[1..]);
      case LongLacking =>
        LongLetterRead(cfg, silent, ds, TailText(t), "", todo);
    }
  }

  lemma TailRead(cfg: Config, silent: bool, ds: seq<Letter>, t: Tail, front: seq<string>, more: seq<string>,
                 element: string, kept: seq<string>, skipped: seq<string>)
    requires Declares(cfg, silent, ds) && IsTail(cfg, ds, t, more == []) && t != Bare
    requires front == [element] + TailMore(t)
    ensures TailText(t) != "" && |TailOutcomes(cfg, silent, t)| == 1
    ensures RefNext(cfg, Scan(kept, skipped, front + more, TailText(t))) ==
            (Scan(kept + front, skipped, more, ""), Some(TailOutcomes(cfg, silent, t)[0]))
  {
    hide Declares, IsTail, TakeShort, StepOver, AtElement, LongOutcome, TailMore, Advance;
    var todo := front + more;
    if t.LongAttached? || t.LongSeparate? || t.LongLacking? {
      LongTailRead(cfg, silent, ds, t, element, more, todo);
    } else {
      LetterTailRead(cfg, silent, ds, t, element, more, todo);
    }
    AdvanceSome(kept, skipped, front, more, TailText(t), TakeShort(cfg, TailText(t), todo));
  }

  // ---------------------------------------------------------------- elements

  /** What is written, in one element or two. `Double` and `Single` are long options behind two dashes or one. */
  datatype Item = Operand(text: string) | Cluster(flags: string, tail: Tail) | Double(u: LongUse) | Single(u: LongUse)

  function Elements(x: Item): seq<string> {
    match x
    case Operand(text) => [text]
    case Cluster(flags, tail) => ["-" + (flags + TailText(tail))] + TailMore(tail)
    case Double(u) => ["--" + LongText(u)] + LongMore(u)
    case Single(u) => ["-" + LongText(u)] + LongMore(u)
  }

  /** Behind one dash this is read as letters: where long options are allowed there, it must not be one. */
  ghost predicate IsCluster(cfg: Config, text: string) {
    && text != "" && (text[0] == '-' ==> cfg.longopts.None? && text != "-")
    && (cfg.longopts.Some? && cfg.longOnly ==>
          && text[0] in cfg.Letters()
          && (|text| > 1 ==> Stands(cfg.longopts.value, text[..NameEnd(text)], true, NoMatch)))
  }

  ghost predicate IsItem(cfg: Config, ds: seq<Letter>, x: Item, last: bool) {
    match x
    case Operand(text) => text == "" || text == "-" || text[0] != '-'
    case Cluster(flags, tail) =>
      && (forall c <- flags :: IsFlag(ds, c, cfg.longopts.Some?)) && IsTail(cfg, ds, tail, last)
      && IsCluster(cfg, flags + TailText(tail))
    case Double(u) => cfg.longopts.Some? && LongText(u) != "" && IsUse(cfg.longopts.value, u, cfg.longOnly, last)
    case Single(u) =>
      && cfg.longopts.Some? && cfg.longOnly && LongText(u) != "" && LongText(u)[0] != '-'
      && IsUse(cfg.longopts.value, u, true, last)
      && (|LongText(u)| == 1 || u.m.NoMatch? ==> LongText(u)[0] !in cfg.Letters())
  }

  function ItemOutcomes(cfg: Config, silent: bool, ds: seq<Letter>, x: Item): seq<Outcome> {
    match x
    case Operand(text) => [Outcome(1, Some(text), None, None, None)]
    case Cluster(flags, tail) => FlagOutcomes(ds, flags, cfg.longopts.Some?) + TailOutcomes(cfg, silent, tail)
    case Double(u) => [LongOutcome(Options(cfg), u, silent)]
    case Single(u) => [LongOutcome(Options(cfg), u, silent)]
  }

  /** A scan that starts an element of letters reads them. */
  lemma ClusterStarts(cfg: Config, text: string, element: string, more: seq<string>, kept: seq<string>,
                      skipped: seq<string>)
    requires IsCluster(cfg, text) && element == "-" + text
    ensures RefRun(cfg, Scan(kept, skipped, [element] + more, "")) ==
            RefRun(cfg, Scan(kept, skipped, [element] + more, text))
  {
    hide TakeShort, MatchLong, Stands, NameEnd;
    var todo := [element] + more;
    assert element[1..] == text;
    if cfg.longopts.Some? && cfg.longOnly && |text| > 1 {
      MatchIs(cfg.longopts.value, text[..NameEnd(text)], true, NoMatch);
    }
    assert TakeElement(cfg, todo) == TakeShort(cfg, text, todo);
    NotSteppedOver(cfg, Scan(kept, skipped, todo, ""));
  }

  lemma NotSteppedOver(cfg: Config, s: Scan)
    requires s.todo != [] && !IsOperand(s.todo[0])
    ensures StepOver(cfg, s) == s
  {
    assert s.todo[..0] == [] && s.todo[0..] == s.todo && s.skipped + [] == s.skipped;
  }

  lemma ClusterRun(cfg: Config, silent: bool, ds: seq<Letter>, x: Item, more: seq<string>, kept: seq<string>,
                   skipped: seq<string>)
    requires Declares(cfg, silent, ds) && x.Cluster? && IsItem(cfg, ds, x, more == [])
    ensures RefRun(cfg, Scan(kept, skipped, Elements(x) + more, "")) ==
            More(ItemOutcomes(cfg, silent, ds, x), RefRun(cfg, Scan(kept + Elements(x), skipped, more, "")))
  {
    hide Declares, IsTail, Stands, NameEnd, RefRun, RefNext, IsFlag, TailOutcomes, TailMore, TailText, FlagOutcomes;
    var text, long := x.flags + TailText(x.tail), cfg.longopts.Some?;
    var element, front := "-" + text, Elements(x);
    var todo := front + more;
    assert todo == [element] + (TailMore(x.tail) + more);
    ClusterStarts(cfg, text, element, TailMore(x.tail) + more, kept, skipped);
    FlagsRun(cfg, silent, ds, x.flags, TailText(x.tail), kept, skipped, todo);
    if x.tail == Bare {
      BareTail(cfg, silent);
      assert front == [element];
      assert todo[1..] == more;
      assert FlagOutcomes(ds, x.flags, long) + [] == FlagOutcomes(ds, x.flags, long);
    } else {
      TailRead(cfg, silent, ds, x.tail, front, more, element, kept, skipped);
      var s := Scan(kept, skipped, todo, TailText(x.tail));
      var s' := Scan(kept + front, skipped, more, "");
      RunOne(cfg, s, s', TailOutcomes(cfg, silent, x.tail)[0]);
      assert TailOutcomes(cfg, silent, x.tail) == [TailOutcomes(cfg, silent, x.tail)[0]];
      MoreMore(FlagOutcomes(ds, x.flags, long), TailOutcomes(cfg, silent, x.tail), RefRun(cfg, s'));
    }
  }

  lemma BareTail(cfg: Config, silent: bool)
    ensures TailText(Bare) == "" && TailMore(Bare) == [] && TailOutcomes(cfg, silent, Bare) == []
  {
  }

  lemma ElementRead(cfg: Config, front: seq<string>, more: seq<string>, out: Outcome, kept: seq<string>,
                    skipped: seq<string>)
    requires front != [] && !IsOperand(front[0]) && front[0] != "--"
    requires TakeElement(cfg, front + more) == Taken(out, |front|, "")
    ensures RefRun(cfg, Scan(kept, skipped, front + more, "")) ==
            More([out], RefRun(cfg, Scan(kept + front, skipped, more, "")))
  {
    hide TakeElement, RefRun, StepOver, Advance;
    var s, t := Scan(kept, skipped, front + more, ""), Taken(out, |front|, "");
    NotSteppedOver(cfg, s);
    AdvanceSome(kept, skipped, front, more, "", t);
    RunOne(cfg, s, Scan(kept + front, skipped, more, ""), out);
  }

  lemma DoubleRun(cfg: Config, silent: bool, ds: seq<Letter>, x: Item, more: seq<string>, kept: seq<string>,
                  skipped: seq<string>)
    requires Declares(cfg, silent, ds) && x.Double? && IsItem(cfg, ds, x, more == [])
    ensures RefRun(cfg, Scan(kept, skipped, Elements(x) + more, "")) ==
            More(ItemOutcomes(cfg, silent, ds, x), RefRun(cfg, Scan(kept + Elements(x), skipped, more, "")))
  {
    hide Declares, LongText, RefRun, LongOutcome, Stands, TakeLong;
    var element, todo := "--" + LongText(x.u), Elements(x) + more;
    assert element[2..] == LongText(x.u);
    assert todo[1..] == LongMore(x.u) + more;
    LongRead(cfg, silent, ds, x.u, cfg.longOnly, todo);
    ElementRead(cfg, Elements(x), more, LongOutcome(Options(cfg), x.u, silent), kept, skipped);
  }

  lemma SingleRun(cfg: Config, silent: bool, ds: seq<Letter>, x: Item, more: seq<string>, kept: seq<string>,
                  skipped: seq<string>)
    requires Declares(cfg, silent, ds) && x.Single? && IsItem(cfg, ds, x, more == [])
    ensures RefRun(cfg, Scan(kept, skipped, Elements(x) + more, "")) ==
            More(ItemOutcomes(cfg, silent, ds, x), RefRun(cfg, Scan(kept + Elements(x), skipped, more, "")))
  {
    hide Declares, LongText, RefRun, LongOutcome, Stands, TakeLong, TakeShort;
    var element, todo := "-" + LongText(x.u), Elements(x) + more;
    assert element[1..] == LongText(x.u);
    assert todo[1..] == LongMore(x.u) + more;
    LongRead(cfg, silent, ds, x.u, true, todo);
    ElementRead(cfg, Elements(x), more, LongOutcome(Options(cfg), x.u, silent), kept, skipped);
  }

  /** What is written for an option is reported and taken, whatever comes behind it. */
  lemma OptionRun(cfg: Config, silent: bool, ds: seq<Letter>, x: Item, more: seq<string>, kept: seq<string>,
                  skipped: seq<string>)
    requires Declares(cfg, silent, ds) && !x.Operand? && IsItem(cfg, ds, x, more == [])
    ensures RefRun(cfg, Scan(kept, skipped, Elements(x) + more, "")) ==
            More(ItemOutcomes(cfg, silent, ds, x), RefRun(cfg, Scan(kept + Elements(x), skipped, more, "")))
  {
    hide *;
    match x {
      case Operand(_) =>
      case Cluster(_, _) =>
        ClusterRun(cfg, silent, ds, x, more, kept, skipped);
      case Double(_) =>
        DoubleRun(cfg, silent, ds, x, more, kept, skipped);
      case Single(_) =>
        SingleRun(cfg, silent, ds, x, more, kept, skipped);
    }
  }

  // ---------------------------------------------------------------- operands

  /** In PERMUTE order an operand is stepped over and changes nothing of what is reported. */
  lemma OperandRunPermute(cfg: Config, text: string, more: seq<string>, kept: seq<string>, skipped: seq<string>)
    requires IsOperand(text) && cfg.Order().Permute?
    ensures RefRun(cfg, Scan(kept, skipped, [text] + more, "")) == RefRun(cfg, Scan(kept, skipped + [text], more, ""))
  {
    hide AtElement;
    var todo, n := [text] + more, OperandRun(more);
    assert todo[1..] == more;
    assert todo[..n + 1] == [text] + more[..n] && todo[n + 1..] == more[n..];
    Associative(skipped, [text], more[..n]);
  }

  lemma OperandRunInOrder(cfg: Config, text: string, more: seq<string>, kept: seq<string>, skipped: seq<string>)
    requires IsOperand(text) && cfg.Order().ReturnInOrder?
    ensures RefRun(cfg, Scan(kept, skipped, [text] + more, "")) ==
            More([Outcome(1, Some(text), None, None, None)], RefRun(cfg, Scan(kept + [text], skipped, more, "")))
  {
    hide RefRun;
    var s, out := Scan(kept, skipped, [text] + more, ""), Outcome(1, Some(text), None, None, None);
    AdvanceSome(kept, skipped, [text], more, "", Taken(out, 1, ""));
    RunOne(cfg, s, Scan(kept + [text], skipped, more, ""), out);
  }

  lemma OperandRunRequire(cfg: Config, text: string, more: seq<string>, kept: seq<string>, skipped: seq<string>)
    requires IsOperand(text) && cfg.Order().RequireOrder?
    ensures RefRun(cfg, Scan(kept, skipped, [text] + more, "")) == (Scan(kept, skipped, [text] + more, ""), [])
  {
  }

  // ---------------------------------------------------------------- whole command lines

  /** Options and operands in any order, and perhaps `--` and more operands behind it. */
  function Line(items: seq<Item>, rest: Option<seq<string>>): seq<string> {
    if items != [] then Elements(items[0]) + Line(items[1..], rest)
    else if rest.Some? then ["--"] + rest.value
    else []
  }

  ghost predicate AreItems(cfg: Config, ds: seq<Letter>, items: seq<Item>, rest: Option<seq<string>>) {
    forall i :: 0 <= i < |items| ==> IsItem(cfg, ds, items[i], i + 1 == |items| && rest.None?)
  }

  /** What is reported: in PERMUTE order nothing of an operand, in REQUIRE_ORDER nothing from the first one on. */
  function Reports(cfg: Config, silent: bool, ds: seq<Letter>, items: seq<Item>): seq<Outcome> {
    if items == [] then []
    else if items[0].Operand? && cfg.Order().Permute? then Reports(cfg, silent, ds, items[1..])
    else if items[0].Operand? && cfg.Order().RequireOrder? then []
    else ItemOutcomes(cfg, silent, ds, items[0]) + Reports(cfg, silent, ds, items[1..])
  }

  /** The elements that are taken. */
  function KeptOf(order: Ordering, items: seq<Item>, rest: Option<seq<string>>): seq<string> {
    if items == [] then if rest.Some? then ["--"] else []
    else if items[0].Operand? && order.Permute? then KeptOf(order, items[1..], rest)
    else if items[0].Operand? && order.RequireOrder? then []
    else Elements(items[0]) + KeptOf(order, items[1..], rest)
  }

  /** The operands that are stepped over. */
  function SkippedOf(order: Ordering, items: seq<Item>, rest: Option<seq<string>>): seq<string> {
    if items == [] then if rest.Some? then rest.value else []
    else if items[0].Operand? && order.Permute? then [items[0].text] + SkippedOf(order, items[1..], rest)
    else if items[0].Operand? && order.RequireOrder? then []
    else SkippedOf(order, items[1..], rest)
  }

  /** What is not looked at. */
  function LeftOf(order: Ordering, items: seq<Item>, rest: Option<seq<string>>): seq<string> {
    if items == [] then []
    else if items[0].Operand? && order.RequireOrder? then Line(items, rest)
    else LeftOf(order, items[1..], rest)
  }

  lemma LineEnd(cfg: Config, rest: Option<seq<string>>, kept: seq<string>, skipped: seq<string>)
    ensures RefRun(cfg, Scan(kept, skipped, Line([], rest), "")) ==
            (Scan(kept + KeptOf(cfg.Order(), [], rest), skipped + SkippedOf(cfg.Order(), [], rest), [], ""), [])
  {
    var todo := Line([], rest);
    var s := Scan(kept, skipped, todo, "");
    if rest.None? {
      assert kept + [] == kept && skipped + [] == skipped && todo[0..] == [] && todo[..0] == [];
    } else {
      assert todo[1..] == rest.value;
      NotSteppedOver(cfg, s);
    }
  }

  lemma RestOfItems(cfg: Config, ds: seq<Letter>, items: seq<Item>, rest: Option<seq<string>>)
    requires items != [] && AreItems(cfg, ds, items, rest)
    ensures AreItems(cfg, ds, items[1..], rest) && IsItem(cfg, ds, items[0], Line(items[1..], rest) == [])
  {
    hide IsItem;
    var more := items[1..];
    assert Line(more, rest) == [] <==> 1 == |items| && rest.None?;
    forall i | 0 <= i < |more| ensures IsItem(cfg, ds, more[i], i + 1 == |more| && rest.None?) {
      assert IsItem(cfg, ds, items[i + 1], i + 2 == |items| && rest.None?);
    }
  }

  lemma OperandIs(cfg: Config, ds: seq<Letter>, x: Item, last: bool)
    requires x.Operand? && IsItem(cfg, ds, x, last)
    ensures IsOperand(x.text) && Elements(x) == [x.text]
  {
  }

  /** The command line is read as it was written, in every order. */
  lemma {:induction false} LineRun(cfg: Config, silent: bool, ds: seq<Letter>, items: seq<Item>,
                                   rest: Option<seq<string>>, kept: seq<string>, skipped: seq<string>)
    requires Declares(cfg, silent, ds) && AreItems(cfg, ds, items, rest)
    ensures RefRun(cfg, Scan(kept, skipped, Line(items, rest), "")) ==
            (Scan(kept + KeptOf(cfg.Order(), items, rest), skipped + SkippedOf(cfg.Order(), items, rest),
                  LeftOf(cfg.Order(), items, rest), ""),
             Reports(cfg, silent, ds, items))
    decreases |items|
  {
    hide Declares, AreItems, IsItem, RefRun, Elements, ItemOutcomes;
    if items == [] {
      LineEnd(cfg, rest, kept, skipped);
    } else {
      var x, more, order := items[0], Line(items[1..], rest), cfg.Order();
      RestOfItems(cfg, ds, items, rest);
      if !x.Operand? {
        OptionRun(cfg, silent, ds, x, more, kept, skipped);
        LineRun(cfg, silent, ds, items[1..], rest, kept + Elements(x), skipped);
        Associative(kept, Elements(x), KeptOf(order, items[1..], rest));
      } else {
        OperandIs(cfg, ds, x, more == []);
        if order.Permute? {
          OperandRunPermute(cfg, x.text, more, kept, skipped);
          LineRun(cfg, silent, ds, items[1..], rest, kept, skipped + [x.text]);
          Associative(skipped, [x.text], SkippedOf(order, items[1..], rest));
        } else if order.ReturnInOrder? {
          OperandRunInOrder(cfg, x.text, more, kept, skipped);
          LineRun(cfg, silent, ds, items[1..], rest, kept + [x.text], skipped);
          Associative(kept, [x.text], KeptOf(order, items[1..], rest));
          OperandOutcome(cfg, silent, ds, x);
        } else {
          OperandRunRequire(cfg, x.text, more, kept, skipped);
          assert kept + [] == kept && skipped + [] == skipped;
        }
      }
    }
  }

  lemma OperandOutcome(cfg: Config, silent: bool, ds: seq<Letter>, x: Item)
    requires x.Operand?
    ensures ItemOutcomes(cfg, silent, ds, x) == [Outcome(1, Some(x.text), None, None, None)]
  {
  }

  /**
   In PERMUTE order the scan reports every option with its argument and nothing else,
   in order, and sets apart exactly the operands.
   */
  lemma CommandLine(cfg: Config, silent: bool, ds: seq<Letter>, items: seq<Item>, rest: Option<seq<string>>)
    requires Declares(cfg, silent, ds) && AreItems(cfg, ds, items, rest) && cfg.Order().Permute?
    ensures var line := Line(items, rest);
            && RefRun(cfg, Scan([], [], line, "")).1 == Reports(cfg, silent, ds, items)
            && OptionsOf(cfg, line) == KeptOf(Permute, items, rest)
            && OperandsOf(cfg, line) == SkippedOf(Permute, items, rest)
  {
    hide RefRun, Declares, AreItems, Reports, KeptOf, SkippedOf, OptionsOf, OperandsOf, LeftOf;
    var line := Line(items, rest);
    LineRun(cfg, silent, ds, items, rest, [], []);
    RunPartitions(cfg, Scan([], [], line, ""));
    assert [] + OptionsOf(cfg, line) == OptionsOf(cfg, line) && [] + OperandsOf(cfg, line) == OperandsOf(cfg, line);
    assert [] + KeptOf(Permute, items, rest) == KeptOf(Permute, items, rest);
    assert [] + SkippedOf(Permute, items, rest) == SkippedOf(Permute, items, rest);
  }

  // ---------------------------------------------------------------- every command line is one

  lemma StandsItself(opts: seq<LongOption>, name: string, longOnly: bool)
    ensures Stands(opts, name, longOnly, MatchLong(opts, name, longOnly))
  {
    var exact := First(opts, (o: LongOption) => o.name == name);
    var prefix := First(opts, (o: LongOption) => name <= o.name);
    if exact.Some? {
      assert IsExact(opts, name, exact.value);
    } else if prefix.Some? {
      var i := prefix.value;
      assert IsFirstPrefix(opts, name, i);
      forall j ensures Clashes(opts, name, longOnly, i, j) <==> IsRival(opts, name, longOnly, i, j) {
      }
    }
  }

  lemma LongWritten(opts: seq<LongOption>, text: string, more: seq<string>, longOnly: bool) returns (u: LongUse)
    ensures LongText(u) == text && LongMore(u) <= more && IsUse(opts, u, longOnly, |more| == |LongMore(u)|)
    ensures u.name == text[..NameEnd(text)]
  {
    hide Stands;
    var n := NameEnd(text);
    var name := text[..n];
    var m := MatchLong(opts, name, longOnly);
    StandsItself(opts, name, longOnly);
    if n < |text| {
      u := LongUse(name, m, Joined(text[n + 1..]));
      assert text == name + "=" + text[n + 1..];
    } else if m.Unique? && opts[m.index].hasArg.RequiredArgument? && more != [] {
      u := LongUse(name, m, Apart(more[0]));
    } else {
      u := LongUse(name, m, NoValue);
    }
  }

  lemma {:induction false} OnlyW(ds: seq<Letter>, c: char, long: bool)
    requires MeaningOf(ds, c, long).LongName?
    ensures c == 'W' && long
    decreases |ds|
  {
    if LetterOf(ds[0]) != c {
      OnlyW(ds[1..], c, long);
    }
  }

  lemma TailWritten(cfg: Config, ds: seq<Letter>, text: string, more: seq<string>) returns (tail: Tail)
    requires text != "" && !IsFlag(ds, text[0], cfg.longopts.Some?)
    ensures TailText(tail) == text && TailMore(tail) <= more && IsTail(cfg, ds, tail, |more| == |TailMore(tail)|)
  {
    hide MeaningOf, IsUse, LongMore, LongText, NameEnd;
    var c, rest, long := text[0], text[1..], cfg.longopts.Some?;
    assert text == [c] + rest;
    match MeaningOf(ds, c, long) {
      case Argument(optional) =>
        tail := if rest != "" then Attached(c, rest) else if optional then Without(c)
                else if more != [] then Separate(c, more[0]) else Lacking(c);
      case LongName =>
        OnlyW(ds, c, long);
        if rest != "" {
          var u := LongWritten(cfg.longopts.value, rest, more, false);
          tail := LongAttached(u);
        } else if more != [] {
          var u := LongWritten(cfg.longopts.value, more[0], more[1..], false);
          tail := LongSeparate(u);
        } else {
          tail := LongLacking;
        }
      case _ =>
    }
  }

  lemma {:induction false} ClusterWritten(cfg: Config, ds: seq<Letter>, text: string, more: seq<string>)
    returns (flags: string, tail: Tail)
    ensures flags + TailText(tail) == text && TailMore(tail) <= more
    ensures IsTail(cfg, ds, tail, |more| == |TailMore(tail)|)
    ensures forall c <- flags :: IsFlag(ds, c, cfg.longopts.Some?)
    decreases |text|
  {
    hide IsFlag, IsTail;
    if text == "" {
      flags, tail := "", Bare;
      BareWritten(cfg, ds, |more| == 0);
    } else if !IsFlag(ds, text[0], cfg.longopts.Some?) {
      flags := "";
      tail := TailWritten(cfg, ds, text, more);
    } else {
      var flags';
      flags', tail := ClusterWritten(cfg, ds, text[1..], more);
      flags := [text[0]] + flags';
    }
  }

  lemma BareWritten(cfg: Config, ds: seq<Letter>, last: bool)
    ensures IsTail(cfg, ds, Bare, last)
  {
  }

  lemma ClusterItem(cfg: Config, ds: seq<Letter>, text: string, todo: seq<string>) returns (x: Item)
    requires todo != [] && todo[0] == "-" + text && IsCluster(cfg, text)
    ensures Elements(x) <= todo && IsItem(cfg, ds, x, |todo| == |Elements(x)|)
  {
    hide IsFlag, IsTail, IsCluster, TailText, TailMore;
    var flags, tail := ClusterWritten(cfg, ds, text, todo[1..]);
    x := Cluster(flags, tail);
    FrontOf(todo, TailMore(tail));
  }

  lemma FrontOf(todo: seq<string>, more: seq<string>)
    requires todo != [] && more <= todo[1..]
    ensures [todo[0]] + more <= todo
  {
  }

  lemma LongItem(cfg: Config, ds: seq<Letter>, text: string, double: bool, todo: seq<string>, u: LongUse)
    returns (x: Item)
    requires todo != [] && todo[0] == (if double then "--" else "-") + text && LongText(u) == text
    requires LongMore(u) <= todo[1..]
    requires cfg.longopts.Some? && text != ""
    requires IsUse(cfg.longopts.value, u, if double then cfg.longOnly else true, |todo[1..]| == |LongMore(u)|)
    requires !double ==> cfg.longOnly && text[0] != '-' && (|text| == 1 || u.m.NoMatch? ==> text[0] !in cfg.Letters())
    ensures Elements(x) <= todo && IsItem(cfg, ds, x, |todo| == |Elements(x)|)
  {
    hide IsUse, LongText, LongMore;
    x := if double then Double(u) else Single(u);
    FrontOf(todo, LongMore(u));
  }

  lemma ItemWritten(cfg: Config, ds: seq<Letter>, todo: seq<string>) returns (x: Item)
    requires todo != [] && todo[0] != "--"
    ensures Elements(x) <= todo && IsItem(cfg, ds, x, |todo| == |Elements(x)|)
  {
    hide IsUse, LongText, LongMore, Stands, NameEnd;
    var element := todo[0];
    if IsOperand(element) {
      x := Operand(element);
      FrontOf(todo, []);
    } else if cfg.longopts.Some? && element[1] == '-' {
      assert element == "--" + element[2..];
      var u := LongWritten(cfg.longopts.value, element[2..], todo[1..], cfg.longOnly);
      x := LongItem(cfg, ds, element[2..], true, todo, u);
    } else {
      var text := element[1..];
      assert element == "-" + text;
      if cfg.longopts.Some? && cfg.longOnly && (|text| > 1 || text[0] !in cfg.Letters()) {
        var u := LongWritten(cfg.longopts.value, text, todo[1..], true);
        UseStands(cfg.longopts.value, u, |todo[1..]| == |LongMore(u)|);
        if u.m.NoMatch? && text[0] in cfg.Letters() {
          x := ClusterItem(cfg, ds, text, todo);
        } else {
          x := LongItem(cfg, ds, text, false, todo, u);
        }
      } else {
        x := ClusterItem(cfg, ds, text, todo);
      }
    }
  }

  lemma UseStands(opts: seq<LongOption>, u: LongUse, last: bool)
    requires IsUse(opts, u, true, last)
    ensures Stands(opts, u.name, true, u.m)
  {
  }

  lemma ItemBefore(cfg: Config, ds: seq<Letter>, x: Item, items: seq<Item>, rest: Option<seq<string>>)
    requires IsItem(cfg, ds, x, items == [] && rest.None?) && AreItems(cfg, ds, items, rest)
    ensures AreItems(cfg, ds, [x] + items, rest)
  {
    hide IsItem;
  }

  /** The forms leave nothing out: every command line is written in them. */
  lemma {:induction false} EveryLine(cfg: Config, ds: seq<Letter>, todo: seq<string>)
    returns (items: seq<Item>, rest: Option<seq<string>>)
    ensures Line(items, rest) == todo && AreItems(cfg, ds, items, rest)
    decreases |todo|
  {
    hide AreItems, IsItem, Elements;
    if todo == [] {
      items, rest := [], None;
      NoItems(cfg, ds, rest);
    } else if todo[0] == "--" {
      items, rest := [], Some(todo[1..]);
      NoItems(cfg, ds, rest);
    } else {
      var x := ItemWritten(cfg, ds, todo);
      var n := |Elements(x)|;
      SomeElements(x);
      var items';
      items', rest := EveryLine(cfg, ds, todo[n..]);
      LineIsEmpty(items', rest);
      ItemBefore(cfg, ds, x, items', rest);
      items := [x] + items';
      assert items[1..] == items' && todo == Elements(x) + todo[n..];
    }
  }

  lemma NoItems(cfg: Config, ds: seq<Letter>, rest: Option<seq<string>>)
    ensures AreItems(cfg, ds, [], rest)
  {
  }

  lemma SomeElements(x: Item)
    ensures Elements(x) != []
  {
  }

  lemma LineIsEmpty(items: seq<Item>, rest: Option<seq<string>>)
    ensures Line(items, rest) == [] <==> items == [] && rest.None?
  {
    if items != [] {
      SomeElements(items[0]);
    }
  }

  // ---------------------------------------------------------------- the emulator's own option string

  /** The letters of `a:d:fg:hi:m:p:r:v`. */
  const EMULATOR: seq<Letter> := [
    Letter('a', RequiredArgument), Letter('d', RequiredArgument), Letter('f', NoArgument),
    Letter('g', RequiredArgument), Letter('h', NoArgument), Letter('i', RequiredArgument),
    Letter('m', RequiredArgument), Letter('p', RequiredArgument), Letter('r', RequiredArgument),
    Letter('v', NoArgument)]

  lemma Spelled(k: nat, behind: string, text: string)
    requires k < |EMULATOR| && LettersText(EMULATOR[k + 1..]) == behind
    requires [LetterOf(EMULATOR[k])] + MarkOf(EMULATOR[k]) + behind == text
    ensures LettersText(EMULATOR[k..]) == text
  {
    assert EMULATOR[k..][1..] == EMULATOR[k + 1..];
  }

  lemma EmulatorText()
    ensures LettersText(EMULATOR) == "a:d:fg:hi:m:p:r:v"
  {
    hide LettersText;
    EmulatorTail();
    Spelled(0, "d:fg:hi:m:p:r:v", "a:d:fg:hi:m:p:r:v");
    assert EMULATOR[0..] == EMULATOR;
  }

  lemma EmulatorTail()
    ensures LettersText(EMULATOR[1..]) == "d:fg:hi:m:p:r:v"
  {
    hide LettersText;
    EmulatorMiddle();
    Spelled(2, "g:hi:m:p:r:v", "fg:hi:m:p:r:v");
    Spelled(1, "fg:hi:m:p:r:v", "d:fg:hi:m:p:r:v");
  }

  lemma EmulatorMiddle()
    ensures LettersText(EMULATOR[3..]) == "g:hi:m:p:r:v"
  {
    hide LettersText;
    EmulatorEnd();
    Spelled(4, "i:m:p:r:v", "hi:m:p:r:v");
    Spelled(3, "hi:m:p:r:v", "g:hi:m:p:r:v");
  }

  lemma EmulatorEnd()
    ensures LettersText(EMULATOR[5..]) == "i:m:p:r:v"
  {
    assert EMULATOR[10..] == [];
    assert LettersText(EMULATOR[10..]) == "";
    hide LettersText;
    Spelled(9, "", "v");
    Spelled(8, "v", "r:v");
    Spelled(7, "r:v", "p:r:v");
    Spelled(6, "p:r:v", "m:p:r:v");
    Spelled(5, "m:p:r:v", "i:m:p:r:v");
  }

  lemma EmulatorLetters(cfg: Config)
    requires cfg.optstring == "a:d:fg:hi:m:p:r:v"
    ensures Declares(cfg, false, EMULATOR)
  {
    hide LettersText;
    EmulatorText();
    assert "" + LettersText(EMULATOR) == LettersText(EMULATOR);
  }

  lemma PortMeans(long: bool)
    ensures MeaningOf(EMULATOR, 'g', long) == Argument(false)
  {
    var e := EMULATOR;
    assert MeaningOf(e[3..], 'g', long) == Argument(false);
    assert e[2..][1..] == e[3..] && e[1..][1..] == e[2..];
    assert MeaningOf(e[2..], 'g', long) == Argument(false);
    assert MeaningOf(e[1..], 'g', long) == Argument(false);
  }

  lemma PortAndGameItems(cfg: Config, g: Item, game: Item)
    requires cfg.optstring == "a:d:fg:hi:m:p:r:v" && !cfg.longOnly
    requires g == Cluster("", Separate('g', "24689")) && game == Operand("game.3dsx")
    ensures AreItems(cfg, EMULATOR, [g, game], None) && Line([g, game], None) == ["-g", "24689", "game.3dsx"]
  {
    hide MeaningOf;
    PortMeans(cfg.longopts.Some?);
    assert [g, game][1..] == [game] && [game][1..] == [];
    assert "" + "g" == "g" && "-" + "g" == "-g";
    assert Line([game], None) == ["game.3dsx"];
  }

  lemma PortAndGameSay(cfg: Config, g: Item, game: Item)
    requires cfg.Order().Permute? && g == Cluster("", Separate('g', "24689")) && game == Operand("game.3dsx")
    ensures Reports(cfg, false, EMULATOR, [g, game]) == [Outcome('g' as int, Some("24689"), None, None, None)]
    ensures SkippedOf(Permute, [g, game], None) == ["game.3dsx"]
  {
    hide MeaningOf;
    assert [g, game][1..] == [game] && [game][1..] == [];
    assert Reports(cfg, false, EMULATOR, [game]) == [];
    assert ItemOutcomes(cfg, false, EMULATOR, g) == [LetterOutcome('g', Some("24689"))];
    assert SkippedOf(Permute, [game], None) == ["game.3dsx"];
  }

  /** `-g 24689 game.3dsx`: the port is the argument of the option, the game the operand. */
  lemma PortAndGame(cfg: Config)
    requires cfg.optstring == "a:d:fg:hi:m:p:r:v" && !cfg.longOnly && !cfg.posixlyCorrect
    ensures var line := ["-g", "24689", "game.3dsx"];
            && RefRun(cfg, Scan([], [], line, "")).1 == [Outcome('g' as int, Some("24689"), None, None, None)]
            && OperandsOf(cfg, line) == ["game.3dsx"]
  {
    hide RefRun, OperandsOf, OptionsOf, Declares, AreItems, Reports, SkippedOf, Line;
    var g, game := Cluster("", Separate('g', "24689")), Operand("game.3dsx");
    EmulatorLetters(cfg);
    PortAndGameItems(cfg, g, game);
    PortAndGameSay(cfg, g, game);
    CommandLine(cfg, false, EMULATOR, [g, game], None);
  }
}
