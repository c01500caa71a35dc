/**
 The command-line scanner as it would be written without touching `argv`: the
 elements still to be read, the elements already taken as options (or as their
 arguments), the operands that were stepped over, and the unread letters of the
 current short-option cluster. `GetoptScanner` is proved to refine it.
 */
module GetoptSpec {
  import opened Sequences
  import opened Wrappers

  datatype Ordering = RequireOrder | Permute | ReturnInOrder

  datatype HasArg = NoArgument | RequiredArgument | OptionalArgument

  /** A long option; `flag` names the caller's cell to be set, if there is one. */
  datatype LongOption = LongOption(name: string, hasArg: HasArg, flag: Option<nat>, val: int)

  /** `posixlyCorrect` is the argument of that name or'ed with the environment variable. */
  datatype Config = Config(optstring: string, longopts: Option<seq<LongOption>>, longOnly: bool, posixlyCorrect: bool)
  {
    /** -1 is how the scanner reports the end, so no long option may be valued -1. */
    predicate Valid() {
      longopts.Some? ==> forall o <- longopts.value :: o.flag.Some? || o.val != -1
    }

    predicate Prefixed() {
      |optstring| > 0 && (optstring[0] == '-' || optstring[0] == '+')
    }

    /** The option letters, without the ordering prefix. */
    function Letters(): string {
      if Prefixed() then optstring[1..] else optstring
    }

    function Order(): Ordering {
      if Prefixed() then if optstring[0] == '-' then ReturnInOrder else RequireOrder
      else if posixlyCorrect then RequireOrder
      else Permute
    }

    /** What a missing argument is reported as. */
    function Missing(): int {
      if |Letters()| > 0 && Letters()[0] == ':' then ':' as int else '?' as int
    }
  }

  /** What one call reports to its caller; `optopt` and `store` only when they are assigned. */
  datatype Outcome = Outcome(code: int, optarg: Option<string>, optopt: Option<int>, longind: Option<nat>,
                             store: Option<(nat, int)>)

  /** An outcome, the number of elements it used up, and the letters left in the cluster. */
  datatype Taken = Taken(out: Outcome, used: nat, cluster: string)

  datatype Scan = Scan(kept: seq<string>, skipped: seq<string>, todo: seq<string>, cluster: string)

  /** Neither an option nor `--`; a lone `-` is an operand. */
  predicate IsOperand(s: string) {
    |s| < 2 || s[0] != '-'
  }

  // ---------------------------------------------------------------- long options

  /** The length of the name part of `name=value`. */
  function NameEnd(text: string): (n: nat)
    ensures n <= |text| && '=' !in text[..n] && (n < |text| ==> text[n] == '=')
  {
    if text == "" || text[0] == '=' then 0 else 1 + NameEnd(text[1..])
  }

  /** The first option satisfying `p`. */
  function First(opts: seq<LongOption>, p: LongOption -> bool): (r: Option<nat>)
    ensures r.Some? ==> r.value < |opts| && p(opts[r.value]) && forall j :: 0 <= j < r.value ==> !p(opts[j])
    ensures r.None? ==> forall j :: 0 <= j < |opts| ==> !p(opts[j])
  {
    if opts == [] then None
    else if p(opts[0]) then Some(0)
    else match First(opts[1..], p)
      case None => None
      case Some(i) =>
        assert forall j :: 1 <= j < |opts| ==> opts[j] == opts[1..][j - 1];
        Some(i + 1)
  }

  datatype Match = NoMatch | Ambiguous | Unique(index: nat)

  /** Two options that one abbreviation must not stand for. */
  predicate Clash(longOnly: bool, a: LongOption, b: LongOption) {
    longOnly || a.hasArg != b.hasArg || a.flag != b.flag || a.val != b.val
  }

  predicate Clashes(opts: seq<LongOption>, name: string, longOnly: bool, i: nat, j: nat) {
    i < j < |opts| && name <= opts[j].name && Clash(longOnly, opts[i], opts[j])
  }

  /** An exact name wins; otherwise an abbreviation must stand for interchangeable options. */
  function MatchLong(opts: seq<LongOption>, name: string, longOnly: bool): (m: Match)
    ensures m.Unique? ==> m.index < |opts| && name <= opts[m.index].name
  {
    match First(opts, (o: LongOption) => o.name == name)
    case Some(i) => Unique(i)
    case None =>
      match First(opts, (o: LongOption) => name <= o.name)
      case None => NoMatch
      case Some(i) =>
        if exists j {:trigger Clashes(opts, name, longOnly, i, j)} ::
             0 <= j < |opts| && Clashes(opts, name, longOnly, i, j)
        then Ambiguous else Unique(i)
  }

  /** The outcome once option `i` has been chosen and its argument settled. */
  function Chosen(o: LongOption, i: nat, arg: Option<string>, used: nat): Taken {
    if o.flag.Some? then Taken(Outcome(0, arg, None, Some(i), Some((o.flag.value, o.val))), used, "")
    else Taken(Outcome(o.val, arg, None, Some(i), None), used, "")
  }

  function Rejected(code: int, optopt: int, used: nat, cluster: string): Taken {
    Taken(Outcome(code, None, Some(optopt), None, None), used, cluster)
  }

  /**
   Read `text` as a long option held by the element `todo[0]`. `None` means that
   `text` should be read as a cluster of short options instead.
   */
  function TakeLong(cfg: Config, text: string, todo: seq<string>, longOnly: bool): (r: Option<Taken>)
    requires cfg.longopts.Some? && todo != []
    ensures !longOnly ==> r.Some?
    ensures r.Some? ==> 1 <= r.value.used <= 2 && r.value.used <= |todo| && r.value.cluster == ""
    ensures r.Some? && cfg.Valid() ==> r.value.out.code != -1
  {
    var opts, n := cfg.longopts.value, NameEnd(text);
    match MatchLong(opts, text[..n], longOnly)
    case Ambiguous => Some(Rejected('?' as int, 0, 1, ""))
    case NoMatch =>
      if !longOnly || (|todo[0]| > 1 && todo[0][1] == '-') || (text != "" && text[0] !in cfg.Letters())
      then Some(Rejected('?' as int, 0, 1, "")) else None
    case Unique(i) =>
      var o := opts[i];
      assert cfg.Valid() ==> o.flag.Some? || o.val != -1;
      if n < |text| then
        if o.hasArg.NoArgument? then Some(Rejected('?' as int, o.val, 1, ""))
        else Some(Chosen(o, i, Some(text[n + 1..]), 1))
      else if o.hasArg.RequiredArgument? then
        if |todo| > 1 then Some(Chosen(o, i, Some(todo[1]), 2))
        else Some(Rejected(cfg.Missing(), o.val, 1, ""))
      else Some(Chosen(o, i, None, 1))
  }

  // ---------------------------------------------------------------- short options

  /** Where the letter stands in the option string; its length when it does not. */
  function Index(letters: string, c: char): (j: nat)
    ensures j <= |letters| && c !in letters[..j] && (j < |letters| ==> letters[j] == c)
    ensures j < |letters| <==> c in letters
  {
    if letters == "" || letters[0] == c then 0 else 1 + Index(letters[1..], c)
  }

  /** The letter at position `j`, where the terminating NUL reads as no letter at all. */
  predicate At(letters: string, j: nat, c: char) {
    j < |letters| && letters[j] == c
  }

  /** Read the first letter of the cluster held by the element `todo[0]`. */
  function TakeShort(cfg: Config, cluster: string, todo: seq<string>): (t: Taken)
    requires cluster != "" && todo != []
    ensures t.used <= |todo|
    ensures t.cluster != "" ==> t.used == 0 && t.cluster == cluster[1..]
    ensures t.cluster == "" ==> t.used > 0
    ensures cfg.Valid() ==> t.out.code != -1
  {
    var letters, c, rest := cfg.Letters(), cluster[0], cluster[1..];
    var j := Index(letters, c);
    if j == |letters| || c == ':' || c == ';' then
      Rejected('?' as int, c as int, if rest == "" then 1 else 0, rest)
    else if c == 'W' && At(letters, j + 1, ';') && cfg.longopts.Some? then
      if rest != "" then TakeLong(cfg, rest, todo, false).value
      else if |todo| == 1 then Rejected(cfg.Missing(), c as int, 1, "")
      else
        var t := TakeLong(cfg, todo[1], todo[1..], false).value;
        t.(used := t.used + 1)
    else if !At(letters, j + 1, ':') then
      Taken(Outcome(c as int, None, None, None, None), if rest == "" then 1 else 0, rest)
    else if rest != "" then
      Taken(Outcome(c as int, Some(rest), None, None, None), 1, "")
    else if At(letters, j + 2, ':') then
      Taken(Outcome(c as int, None, None, None, None), 1, "")
    else if |todo| == 1 then
      Rejected(cfg.Missing(), c as int, 1, "")
    else
      Taken(Outcome(c as int, Some(todo[1]), None, None, None), 2, "")
  }

  /** Read the option element `todo[0]` from its beginning. */
  function TakeElement(cfg: Config, todo: seq<string>): (t: Taken)
    requires todo != [] && !IsOperand(todo[0]) && todo[0] != "--"
    ensures t.used <= |todo|
    ensures t.cluster != "" ==> t.used == 0 && t.cluster == todo[0][2..]
    ensures t.cluster == "" ==> t.used > 0
    ensures cfg.Valid() ==> t.out.code != -1
  {
    var element := todo[0];
    var text := element[1..];
    if cfg.longopts.Some? && element[1] == '-' then
      TakeLong(cfg, element[2..], todo, cfg.longOnly).value
    else if cfg.longopts.Some? && cfg.longOnly && (|element| > 2 || element[1] !in cfg.Letters()) then
      match TakeLong(cfg, text, todo, true)
      case Some(t) => t
      case None => TakeShort(cfg, text, todo)
    else
      TakeShort(cfg, text, todo)
  }

  // ---------------------------------------------------------------- one call

  /** How many operands stand at the front. */
  function OperandRun(todo: seq<string>): (n: nat)
    ensures n <= |todo| && (forall j :: 0 <= j < n ==> IsOperand(todo[j])) && (n < |todo| ==> !IsOperand(todo[n]))
  {
    if todo == [] || !IsOperand(todo[0]) then 0 else 1 + OperandRun(todo[1..])
  }

  function Advance(s: Scan, t: Taken): Scan
    requires t.used <= |s.todo|
  {
    Scan(s.kept + s.todo[..t.used], s.skipped, s.todo[t.used..], t.cluster)
  }

  function StepOver(cfg: Config, s: Scan): Scan {
    if cfg.Order().Permute? then
      var n := OperandRun(s.todo);
      s.(skipped := s.skipped + s.todo[..n], todo := s.todo[n..])
    else s
  }

  predicate WellFormed(s: Scan) {
    s.cluster != "" ==> s.todo != []
  }

  predicate AtEnd(s: Scan) {
    s.todo == [] || s.todo[0] == "--"
  }

  /** At the end nothing is left, or `--` is taken and makes operands of what follows. */
  function Ended(s: Scan): Scan {
    if s.todo == [] then s else Scan(s.kept + [s.todo[0]], s.skipped + s.todo[1..], [], "")
  }

  /** A call at an element boundary, once the operands have been stepped over. */
  function AtElement(cfg: Config, s: Scan): (r: (Scan, Option<Outcome>))
    requires s.cluster == ""
    ensures WellFormed(r.0)
    ensures cfg.Valid() && r.1.Some? ==> r.1.value.code != -1
  {
    if AtEnd(s) then (Ended(s), None)
    else if !IsOperand(s.todo[0]) then
      var t := TakeElement(cfg, s.todo);
      (Advance(s, t), Some(t.out))
    else if cfg.Order().RequireOrder? then (s, None)
    else
      var t := Taken(Outcome(1, Some(s.todo[0]), None, None, None), 1, "");
      (Advance(s, t), Some(t.out))
  }

  /** One call; no outcome means that the scan is over. */
  function RefNext(cfg: Config, s: Scan): (r: (Scan, Option<Outcome>))
    requires WellFormed(s)
    ensures WellFormed(r.0)
    ensures cfg.Valid() && r.1.Some? ==> r.1.value.code != -1
  {
    if s.cluster != "" then
      var t := TakeShort(cfg, s.cluster, s.todo);
      (Advance(s, t), Some(t.out))
    else AtElement(cfg, StepOver(cfg, s))
  }

  // ---------------------------------------------------------------- termination

  function Size(todo: seq<string>): nat {
    if todo == [] then 0 else |todo[0]| + 1 + Size(todo[1..])
  }

  /** Unread characters, counting one more for every unread element. */
  function Measure(s: Scan): nat
    requires WellFormed(s)
  {
    if s.cluster != "" then |s.cluster| + 1 + Size(s.todo[1..]) else Size(s.todo)
  }

  lemma {:induction false} SizeDrop(todo: seq<string>, n: nat)
    requires n <= |todo|
    ensures Size(todo[n..]) + n <= Size(todo)
  {
    if n > 0 {
      SizeDrop(todo[1..], n - 1);
      assert todo[1..][n - 1..] == todo[n..];
    } else {
      assert todo[0..] == todo;
    }
  }

  /** Every call that reports something reads at least one character. */
  lemma NextDecreases(cfg: Config, s: Scan)
    requires WellFormed(s)
    ensures var (s', out) := RefNext(cfg, s); out.Some? ==> Measure(s') < Measure(s)
  {
    var (s', out) := RefNext(cfg, s);
    if out.Some? {
      if s.cluster != "" {
        var t := TakeShort(cfg, s.cluster, s.todo);
        if t.cluster == "" { SizeDrop(s.todo[1..], t.used - 1); assert s.todo[1..][t.used - 1..] == s.todo[t.used..]; }
        else { assert s.todo[0..] == s.todo; }
      } else {
        var s1 := StepOver(cfg, s);
        SizeDrop(s.todo, |s.todo| - |s1.todo|);
        if IsOperand(s1.todo[0]) { return; }
        var t := TakeElement(cfg, s1.todo);
        if t.cluster == "" {
          SizeDrop(s1.todo[1..], t.used - 1);
          assert s1.todo[1..][t.used - 1..] == s1.todo[t.used..];
        }
        else { assert s1.todo[0..] == s1.todo; }
      }
    }
  }

  // ---------------------------------------------------------------- whole scans

  /** Call until the end is reported. */
  function RefRun(cfg: Config, s: Scan): (r: (Scan, seq<Outcome>))
    requires WellFormed(s)
    decreases Measure(s)
  {
    var (s', out) := RefNext(cfg, s);
    if out.None? then (s', [])
    else
      NextDecreases(cfg, s);
      var (end, outs) := RefRun(cfg, s');
      (end, [out.value] + outs)
  }

  /** The number of calls is bounded by the length of the command line. */
  lemma {:induction false} RunIsBounded(cfg: Config, s: Scan)
    requires WellFormed(s)
    ensures |RefRun(cfg, s).1| <= Measure(s)
    decreases Measure(s)
  {
    var (s', out) := RefNext(cfg, s);
    if out.Some? {
      NextDecreases(cfg, s);
      RunIsBounded(cfg, s');
    }
  }

  // ---------------------------------------------------------------- the partition

  /** How many elements a cluster uses up, its own element included. */
  function ClusterWidth(cfg: Config, cluster: string, todo: seq<string>): (w: nat)
    requires cluster != "" && todo != []
    ensures 1 <= w <= |todo|
    decreases |cluster|
  {
    var t := TakeShort(cfg, cluster, todo);
    if t.cluster == "" then t.used else ClusterWidth(cfg, t.cluster, todo)
  }

  /** How many elements the option element in front uses up, itself included. */
  function Width(cfg: Config, todo: seq<string>): (w: nat)
    requires todo != [] && !IsOperand(todo[0]) && todo[0] != "--"
    ensures 1 <= w <= |todo|
  {
    var t := TakeElement(cfg, todo);
    if t.cluster == "" then t.used else ClusterWidth(cfg, t.cluster, todo)
  }

  /** Which elements belong to options, decided left to right without moving any of them. */
  function Marks(cfg: Config, todo: seq<string>): (m: seq<bool>)
    ensures |m| == |todo|
  {
    if todo == [] then []
    else if todo[0] == "--" then [true] + seq(|todo| - 1, _ => false)
    else if IsOperand(todo[0]) then [false] + Marks(cfg, todo[1..])
    else
      var w := Width(cfg, todo);
      seq(w, _ => true) + Marks(cfg, todo[w..])
  }

  /** The elements carrying the mark `b`, in their original order. */
  function Select(todo: seq<string>, marks: seq<bool>, b: bool): seq<string>
    requires |todo| == |marks|
  {
    if todo == [] then []
    else (if marks[0] == b then [todo[0]] else []) + Select(todo[1..], marks[1..], b)
  }

  function OptionsOf(cfg: Config, todo: seq<string>): seq<string> {
    Select(todo, Marks(cfg, todo), true)
  }

  function OperandsOf(cfg: Config, todo: seq<string>): seq<string> {
    Select(todo, Marks(cfg, todo), false)
  }

  /** A selection and its complement hold every element exactly once. */
  lemma {:induction false} SelectionsPartition(todo: seq<string>, marks: seq<bool>)
    requires |todo| == |marks|
    ensures multiset(Select(todo, marks, true) + Select(todo, marks, false)) == multiset(todo)
    ensures |Select(todo, marks, true)| + |Select(todo, marks, false)| == |todo|
  {
    if todo != [] {
      SelectionsPartition(todo[1..], marks[1..]);
      assert todo == [todo[0]] + todo[1..];
    }
  }

  lemma {:induction false} SelectConstant(todo: seq<string>, b: bool, c: bool)
    ensures Select(todo, seq(|todo|, _ => b), c) == if b == c then todo else []
  {
    if todo != [] {
      SelectConstant(todo[1..], b, c);
      assert seq(|todo|, _ => b)[1..] == seq(|todo[1..]|, _ => b);
      assert todo == [todo[0]] + todo[1..];
    }
  }

  lemma {:induction false} SelectConcat(t1: seq<string>, m1: seq<bool>, t2: seq<string>, m2: seq<bool>, b: bool)
    requires |t1| == |m1| && |t2| == |m2|
    ensures Select(t1 + t2, m1 + m2, b) == Select(t1, m1, b) + Select(t2, m2, b)
  {
    if t1 == [] {
      assert t1 + t2 == t2 && m1 + m2 == m2;
    } else {
      var t, m := t1 + t2, m1 + m2;
      var head := if m1[0] == b then [t1[0]] else [];
      calc {
        Select(t, m, b);
        head + Select(t[1..], m[1..], b);
        { assert t[1..] == t1[1..] + t2 && m[1..] == m1[1..] + m2; }
        head + Select(t1[1..] + t2, m1[1..] + m2, b);
        { SelectConcat(t1[1..], m1[1..], t2, m2, b); }
        head + (Select(t1[1..], m1[1..], b) + Select(t2, m2, b));
        (head + Select(t1[1..], m1[1..], b)) + Select(t2, m2, b);
        Select(t1, m1, b) + Select(t2, m2, b);
      }
    }
  }

  /** Splitting off a front part that carries a single mark. */
  lemma SelectFront(todo: seq<string>, n: nat, b: bool, m: seq<bool>, c: bool)
    requires n <= |todo| && |m| == |todo| - n
    ensures Select(todo, seq(n, _ => b) + m, c) == (if b == c then todo[..n] else []) + Select(todo[n..], m, c)
  {
    SelectConstant(todo[..n], b, c);
    assert |todo[..n]| == n;
    SelectConcat(todo[..n], seq(n, _ => b), todo[n..], m, c);
    assert todo[..n] + todo[n..] == todo;
  }

  lemma OperandFirst(cfg: Config, todo: seq<string>)
    requires todo != [] && IsOperand(todo[0])
    ensures OptionsOf(cfg, todo) == OptionsOf(cfg, todo[1..])
    ensures OperandsOf(cfg, todo) == [todo[0]] + OperandsOf(cfg, todo[1..])
  {
    var m := Marks(cfg, todo[1..]);
    assert Marks(cfg, todo) == [false] + m;
    assert ([false] + m)[1..] == m;
  }

  /** Operands at the front only add to the operands. */
  lemma {:induction false} OperandsFirst(cfg: Config, todo: seq<string>)
    ensures var n := OperandRun(todo);
            OptionsOf(cfg, todo) == OptionsOf(cfg, todo[n..]) &&
            OperandsOf(cfg, todo) == todo[..n] + OperandsOf(cfg, todo[n..])
  {
    var n := OperandRun(todo);
    if n == 0 {
      assert todo[0..] == todo;
    } else {
      OperandFirst(cfg, todo);
      OperandsFirst(cfg, todo[1..]);
      assert todo[1..][n - 1..] == todo[n..];
      assert todo[..n] == [todo[0]] + todo[1..][..n - 1];
      Associative([todo[0]], todo[1..][..n - 1], OperandsOf(cfg, todo[n..]));
    }
  }

  /** The marks of an option element and the elements it uses up. */
  lemma OptionFirst(cfg: Config, todo: seq<string>)
    requires todo != [] && !IsOperand(todo[0]) && todo[0] != "--"
    ensures var w := Width(cfg, todo);
            OptionsOf(cfg, todo) == todo[..w] + OptionsOf(cfg, todo[w..]) &&
            OperandsOf(cfg, todo) == OperandsOf(cfg, todo[w..])
  {
    var w := Width(cfg, todo);
    SelectFront(todo, w, true, Marks(cfg, todo[w..]), true);
    SelectFront(todo, w, true, Marks(cfg, todo[w..]), false);
  }

  /** After `--` everything is an operand. */
  lemma TerminatorFirst(cfg: Config, todo: seq<string>)
    requires todo != [] && todo[0] == "--"
    ensures OptionsOf(cfg, todo) == ["--"] && OperandsOf(cfg, todo) == todo[1..]
  {
    var m := seq(|todo| - 1, _ => false);
    SelectFront(todo, 1, true, m, true);
    SelectFront(todo, 1, true, m, false);
    SelectConstant(todo[1..], false, true);
    SelectConstant(todo[1..], false, false);
    assert seq(1, _ => true) == [true];
  }

  /** What is still to come when the cluster has been read up to `cluster`. */
  function Coming(cfg: Config, cluster: string, todo: seq<string>): (r: (seq<string>, seq<string>))
    requires cluster != "" ==> todo != []
  {
    if cluster == "" then (OptionsOf(cfg, todo), OperandsOf(cfg, todo))
    else
      var w := ClusterWidth(cfg, cluster, todo);
      (todo[..w] + OptionsOf(cfg, todo[w..]), OperandsOf(cfg, todo[w..]))
  }

  /** Reading one option moves exactly its elements out of what is to come. */
  lemma AdvanceKeepsComing(cfg: Config, todo: seq<string>, t: Taken, cluster: string)
    requires cluster != "" && todo != [] && t == TakeShort(cfg, cluster, todo)
    ensures var (o, n), (o', n') := Coming(cfg, cluster, todo), Coming(cfg, t.cluster, todo[t.used..]);
            o == todo[..t.used] + o' && n == n'
  {
    assert t.cluster != "" ==> todo[..0] == [] && todo[0..] == todo;
  }

  /** The same for an element read from its beginning. */
  lemma ElementKeepsComing(cfg: Config, todo: seq<string>, t: Taken)
    requires todo != [] && !IsOperand(todo[0]) && todo[0] != "--" && t == TakeElement(cfg, todo)
    ensures var (o', n') := Coming(cfg, t.cluster, todo[t.used..]);
            OptionsOf(cfg, todo) == todo[..t.used] + o' && OperandsOf(cfg, todo) == n'
  {
    OptionFirst(cfg, todo);
    assert t.cluster != "" ==> todo[..0] == [] && todo[0..] == todo;
  }

  /** The options and the operands that the scan will have set apart when it is over. */
  function Destined(cfg: Config, s: Scan): (seq<string>, seq<string>)
    requires WellFormed(s)
  {
    var (o, n) := Coming(cfg, s.cluster, s.todo);
    (s.kept + o, s.skipped + n)
  }

  lemma StepOverKeepsDestined(cfg: Config, s: Scan)
    requires s.cluster == ""
    ensures Destined(cfg, s) == Destined(cfg, StepOver(cfg, s))
  {
    OperandsFirst(cfg, s.todo);
    if cfg.Order().Permute? {
      var n := OperandRun(s.todo);
      Associative(s.skipped, s.todo[..n], OperandsOf(cfg, s.todo[n..]));
    }
  }

  /** Moving elements from what is to come to what has been kept changes no destination. */
  lemma AdvanceKeepsDestined(cfg: Config, s: Scan, t: Taken)
    requires t.used <= |s.todo| && WellFormed(Advance(s, t))
    ensures var (o', n') := Coming(cfg, t.cluster, s.todo[t.used..]);
            Destined(cfg, Advance(s, t)) == (s.kept + (s.todo[..t.used] + o'), s.skipped + n')
  {
    var (o', n') := Coming(cfg, t.cluster, s.todo[t.used..]);
    Associative(s.kept, s.todo[..t.used], o');
  }

  lemma ElementKeepsDestined(cfg: Config, s: Scan)
    requires s.cluster == "" && cfg.Order().Permute?
    requires s.todo != [] ==> !IsOperand(s.todo[0])
    ensures Destined(cfg, AtElement(cfg, s).0) == Destined(cfg, s)
  {
    if s.todo == [] {
    } else if s.todo[0] == "--" {
      TerminatorFirst(cfg, s.todo);
      var end := AtElement(cfg, s).0;
      assert OptionsOf(cfg, []) == [] && OperandsOf(cfg, []) == [];
      assert end.kept + [] == end.kept && end.skipped + [] == end.skipped;
    } else {
      var t := TakeElement(cfg, s.todo);
      ElementKeepsComing(cfg, s.todo, t);
      AdvanceKeepsDestined(cfg, s, t);
    }
  }

  /** No call changes what the scan is destined for. */
  lemma NextKeepsDestined(cfg: Config, s: Scan)
    requires WellFormed(s) && cfg.Order().Permute?
    ensures Destined(cfg, RefNext(cfg, s).0) == Destined(cfg, s)
    ensures RefNext(cfg, s).1.None? ==> RefNext(cfg, s).0.todo == []
  {
    if s.cluster != "" {
      var t := TakeShort(cfg, s.cluster, s.todo);
      AdvanceKeepsComing(cfg, s.todo, t, s.cluster);
      AdvanceKeepsDestined(cfg, s, t);
    } else {
      StepOverKeepsDestined(cfg, s);
      ElementKeepsDestined(cfg, StepOver(cfg, s));
    }
  }

  /**
   In PERMUTE order a whole scan takes exactly the marked elements and steps over
   exactly the others, both in their original order.
   */
  lemma {:induction false} RunPartitions(cfg: Config, s: Scan)
    requires WellFormed(s) && cfg.Order().Permute?
    ensures var end := RefRun(cfg, s).0;
            (end.kept, end.skipped) == Destined(cfg, s) && end.todo == []
    decreases Measure(s)
  {
    NextKeepsDestined(cfg, s);
    var (s', out) := RefNext(cfg, s);
    if out.Some? {
      NextDecreases(cfg, s);
      RunPartitions(cfg, s');
    } else {
      assert s'.kept + [] == s'.kept && s'.skipped + [] == s'.skipped;
    }
  }
}
