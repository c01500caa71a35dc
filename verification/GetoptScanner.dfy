/**
 The scanner itself: it permutes `argv` in place and keeps its position in the
 fields of `_getopt_data_a`. Every method is proved against `GetoptSpec`.
 */
module GetoptScanner {
  import opened Sequences
  import opened Wrappers
  import opened GetoptSpec
  import Layout = GetoptLayout

  /** `t` is `s` with the blocks of length `len` at `i` and `j` exchanged. */
  ghost predicate Swapped(s: seq<string>, t: seq<string>, i: nat, j: nat, len: nat)
    requires i + len <= j && j + len <= |s|
  {
    && |t| == |s|
    && (forall m :: i <= m < i + len ==> t[m] == s[m - i + j])
    && (forall m :: j <= m < j + len ==> t[m] == s[m - j + i])
    && (forall m :: 0 <= m < |s| && !(i <= m < i + len) && !(j <= m < j + len) ==> t[m] == s[m])
  }

  /** Exchange two equally long, disjoint blocks element by element. */
  method SwapBlocks(argv: array<string>, i: nat, j: nat, len: nat)
    requires i + len <= j && j + len <= argv.Length
    modifies argv
    ensures Swapped(old(argv[..]), argv[..], i, j, len)
  {
    ghost var was := argv[..];
    var k := 0;
    while k < len
      invariant k <= len
      invariant forall m :: i <= m < i + k ==> argv[m] == was[m - i + j]
      invariant forall m :: j <= m < j + k ==> argv[m] == was[m - j + i]
      invariant forall m :: 0 <= m < argv.Length && !(i <= m < i + k) && !(j <= m < j + k) ==> argv[m] == was[m]
    {
      argv[i + k], argv[j + k] := argv[j + k], argv[i + k];
      k := k + 1;
    }
  }

  /** `r` is `s` with the blocks `[bottom, middle)` and `[middle, top)` in the other order. */
  ghost predicate Rotates(s: seq<string>, r: seq<string>, bottom: nat, middle: nat, top: nat)
    requires bottom <= middle <= top <= |s|
  {
    && |r| == |s|
    && (forall m :: 0 <= m < bottom ==> r[m] == s[m])
    && (forall m :: bottom <= m < bottom + (top - middle) ==> r[m] == s[m - bottom + middle])
    && (forall m :: bottom + (top - middle) <= m < top ==> r[m] == s[m - (top - middle)])
    && (forall m :: top <= m < |s| ==> r[m] == s[m])
  }

  /**
   `argv` holds `s` behind `head`: options taken, operands stepped over, options
   taken since, and the unread rest, separated by the scanner's three indices.
   */
  ghost predicate Holds(a: seq<string>, head: seq<string>, fn: nat, ln: nat, oi: nat, s: Scan) {
    && |head| <= fn <= ln <= oi <= |a|
    && |s.kept| == (fn - |head|) + (oi - ln) && |s.skipped| == ln - fn && |s.todo| == |a| - oi
    && (forall m :: 0 <= m < |head| ==> a[m] == head[m])
    && (forall m :: |head| <= m < fn ==> a[m] == s.kept[m - |head|])
    && (forall m :: fn <= m < ln ==> a[m] == s.skipped[m - fn])
    && (forall m :: ln <= m < oi ==> a[m] == s.kept[m - ln + (fn - |head|)])
    && (forall m :: oi <= m < |a| ==> a[m] == s.todo[m - oi])
  }

  /** Moving the last index forward takes the elements in between. */
  lemma HoldsAdvanced(a: seq<string>, head: seq<string>, fn: nat, ln: nat, oi: nat, s: Scan, t: Taken, to: nat)
    requires Holds(a, head, fn, ln, oi, s) && t.used <= |s.todo| && to == oi + t.used
    ensures Holds(a, head, fn, ln, to, Advance(s, t))
  {
  }

  /** Rotating the operands behind the options taken since changes nothing about `s`. */
  lemma HoldsRotated(a: seq<string>, r: seq<string>, head: seq<string>, fn: nat, ln: nat, oi: nat, s: Scan, edge: nat)
    requires Holds(a, head, fn, ln, oi, s) && Rotates(a, r, fn, ln, oi) && edge == fn + (oi - ln)
    ensures Holds(r, head, edge, oi, oi, s)
  {
  }

  /** With no operands stepped over the first two indices may move along. */
  lemma HoldsEmpty(a: seq<string>, head: seq<string>, fn: nat, oi: nat, s: Scan)
    requires Holds(a, head, fn, fn, oi, s)
    ensures Holds(a, head, oi, oi, oi, s)
  {
  }

  /** The unread elements are the end of `argv`. */
  lemma HoldsTodo(a: seq<string>, head: seq<string>, fn: nat, ln: nat, oi: nat, s: Scan)
    requires Holds(a, head, fn, ln, oi, s)
    ensures s.todo == a[oi..]
  {
  }

  /** Moving the last two indices over the operands `[oi, to)`. */
  lemma HoldsSteppedOver(cfg: Config, a: seq<string>, head: seq<string>, fn: nat, oi: nat, to: nat, s: Scan)
    requires Holds(a, head, fn, oi, oi, s) && s.cluster == "" && cfg.Order().Permute?
    requires oi <= to <= |a| && (forall j :: oi <= j < to ==> IsOperand(a[j])) && (to < |a| ==> !IsOperand(a[to]))
    ensures Holds(a, head, fn, to, to, StepOver(cfg, s))
  {
    HoldsTodo(a, head, fn, oi, oi, s);
    var n := OperandRun(s.todo);
    assert n == to - oi;
    var s' := StepOver(cfg, s);
    assert |s'.skipped| == to - fn && |s'.todo| == |a| - to && s'.kept == s.kept;
    forall m | fn <= m < to ensures a[m] == s'.skipped[m - fn] {
      if oi <= m { assert s'.skipped[m - fn] == s.todo[m - oi]; }
    }
    assert forall m :: to <= m < |a| ==> a[m] == s'.todo[m - to];
  }

  /** The end of the scan: `argv` is `s` in one piece, cut between options and operands. */
  ghost predicate Partitioned(a: seq<string>, head: seq<string>, optind: nat, s: Scan) {
    a == head + s.kept + s.skipped + s.todo && optind == |head| + |s.kept|
  }

  lemma HoldsPartitioned(a: seq<string>, head: seq<string>, fn: nat, ln: nat, oi: nat, s: Scan)
    requires Holds(a, head, fn, ln, oi, s) && (fn == ln || ln == oi)
    ensures Partitioned(a, head, fn + (oi - ln), s)
  {
  }

  /** Making operands of everything from `oi` on. */
  lemma HoldsTerminated(a: seq<string>, head: seq<string>, fn: nat, oi: nat, s: Scan)
    requires Holds(a, head, fn, oi, oi, s)
    ensures Partitioned(a, head, fn, Scan(s.kept, s.skipped + s.todo, [], ""))
  {
    HoldsPartitioned(a, head, fn, oi, oi, s);
    Associative(head + s.kept, s.skipped, s.todo);
    assert head + s.kept + (s.skipped + s.todo) + [] == head + s.kept + (s.skipped + s.todo);
  }

  lemma RotationExists(s: seq<string>, bottom: nat, middle: nat, top: nat) returns (r: seq<string>)
    requires bottom <= middle <= top <= |s|
    ensures Rotates(s, r, bottom, middle, top)
  {
    r := s[..bottom] + s[middle..top] + s[bottom..middle] + s[top..];
  }

  /** Swapping the shorter first block to the end leaves a smaller rotation to the same goal. */
  lemma RotateLow(s: seq<string>, t: seq<string>, r: seq<string>, bottom: nat, middle: nat, top: nat, len: nat,
                  top': nat)
    requires bottom <= middle <= top <= |s| && len == middle - bottom <= top - middle && top' == top - len
    requires Swapped(s, t, bottom, top', len) && Rotates(s, r, bottom, middle, top)
    ensures Rotates(t, r, bottom, middle, top')
  {
  }

  /** Swapping the shorter second block to the front does so as well. */
  lemma RotateHigh(s: seq<string>, t: seq<string>, r: seq<string>, bottom: nat, middle: nat, top: nat, len: nat,
                   bottom': nat)
    requires bottom <= middle <= top <= |s| && len == top - middle <= middle - bottom && bottom' == bottom + len
    requires Swapped(s, t, bottom, middle, len) && Rotates(s, r, bottom, middle, top)
    ensures Rotates(t, r, bottom', middle, top)
  {
  }

  /** Beside an empty block the goal has been reached. */
  lemma RotatesNothing(s: seq<string>, r: seq<string>, bottom: nat, middle: nat, top: nat)
    requires bottom <= middle <= top <= |s| && Rotates(s, r, bottom, middle, top) && (bottom == middle || middle == top)
    ensures s == r
  {
  }

  /** One round: put the shorter of the two blocks where it belongs in the goal `r`. */
  method SwapShorter(argv: array<string>, bottom: nat, middle: nat, top: nat, ghost r: seq<string>)
    returns (bottom': nat, top': nat)
    requires bottom < middle < top <= argv.Length && Rotates(argv[..], r, bottom, middle, top)
    modifies argv
    ensures bottom <= bottom' <= middle <= top' <= top && top' - bottom' < top - bottom
    ensures Rotates(argv[..], r, bottom', middle, top')
  {
    ghost var was := argv[..];
    bottom', top' := bottom, top;
    if top - middle > middle - bottom {
      var len := middle - bottom;
      top' := top - len;
      SwapBlocks(argv, bottom, top', len);
      RotateLow(was, argv[..], r, bottom, middle, top, len, top');
    } else {
      var len := top - middle;
      bottom' := bottom + len;
      SwapBlocks(argv, bottom, middle, len);
      RotateHigh(was, argv[..], r, bottom, middle, top, len, bottom');
    }
  }

  class Scanner {
    const cfg: Config
    const argv: array<string>
    var optind: nat
    var optarg: Option<string>
    var optopt: int
    var initialized: bool
    /** The unread part of the current element; no value is the null pointer. */
    var nextchar: Option<string>
    var ordering: Ordering
    var firstNonopt: nat
    var lastNonopt: nat
    /** The cells that long options may set. */
    var flags: map<nat, int>
    /** The elements in front of the scan. */
    ghost const head: seq<string>
    /** What the reference scanner would know at this point. */
    ghost var scan: Scan

    constructor (cfg: Config, argv: array<string>, optind: nat)
      requires cfg.Valid() && optind <= argv.Length && 1 <= argv.Length
      ensures Valid() && !initialized && this.cfg == cfg && this.argv == argv
      ensures var base := if optind == 0 then 1 else optind;
              head == argv[..base] && scan == Scan([], [], argv[base..], "")
    {
      this.cfg, this.argv, this.optind := cfg, argv, optind;
      optarg, optopt, initialized, nextchar, flags := None, '?' as int, false, None, map[];
      ordering, firstNonopt, lastNonopt := Permute, 0, 0;
      var base := if optind == 0 then 1 else optind;
      head, scan := argv[..base], Scan([], [], argv[base..], "");
    }

    predicate Cleared()
      reads this
    {
      nextchar.None? || nextchar.value == ""
    }

    function Cluster(): string
      reads this
    {
      if nextchar.None? then "" else nextchar.value
    }

    ghost predicate Valid()
      reads this, argv
    {
      && cfg.Valid() && WellFormed(scan) && scan.cluster == Cluster()
      && (initialized ==>
            Holds(argv[..], head, firstNonopt, lastNonopt, optind, scan) && ordering == cfg.Order()
            && (!ordering.Permute? ==> firstNonopt == lastNonopt))
      && (!initialized ==>
            Holds(argv[..], head, |head|, |head|, |head|, scan) && Cleared()
            && |head| == (if optind == 0 then 1 else optind))
    }

    /** `out` is what the last call reported, given the values it started from. */
    ghost predicate Reports(out: Outcome, code: int, longind: Option<nat>, optopt0: int, flags0: map<nat, int>)
      reads this
    {
      && code == out.code && longind == out.longind && optarg == out.optarg
      && optopt == (if out.optopt.Some? then out.optopt.value else optopt0)
      && flags == (if out.store.Some? then flags0[out.store.value.0 := out.store.value.1] else flags0)
    }

    /**
     Rotate the operands stepped over behind the options taken since, by repeatedly
     swapping the shorter block into its final place.
     */
    method Exchange()
      requires firstNonopt <= lastNonopt <= optind <= argv.Length
      modifies argv, this`firstNonopt, this`lastNonopt
      ensures Rotates(old(argv[..]), argv[..], old(firstNonopt), old(lastNonopt), optind)
      ensures firstNonopt == old(firstNonopt) + (optind - old(lastNonopt))
      ensures lastNonopt == optind
    {
      var bottom, middle, top := firstNonopt, lastNonopt, optind;
      ghost var goal := RotationExists(argv[..], bottom, middle, top);
      ghost var now := argv[..];
      while top > middle && middle > bottom
        invariant 0 <= bottom <= middle <= top <= argv.Length && now == argv[..]
        invariant Rotates(now, goal, bottom, middle, top)
        decreases top - bottom
        modifies argv
      {
        bottom, top := SwapShorter(argv, bottom, middle, top, goal);
        now := argv[..];
      }
      RotatesNothing(now, goal, bottom, middle, top);
      firstNonopt := firstNonopt + (optind - lastNonopt);
      lastNonopt := optind;
    }

    /** Find the long option that `name` stands for: an exact name first, then an abbreviation. */
    method FindLong(opts: seq<LongOption>, name: string, longOnly: bool) returns (m: Match)
      ensures m == MatchLong(opts, name, longOnly)
    {
      var i := 0;
      while i < |opts|
        invariant i <= |opts|
        invariant forall j :: 0 <= j < i ==> opts[j].name != name
      {
        if opts[i].name == name {
          return Unique(i);
        }
        i := i + 1;
      }

      var found: Option<nat>, ambiguous := None, false;
      i := 0;
      while i < |opts|
        invariant i <= |opts|
        invariant found.None? ==> !ambiguous && forall j :: 0 <= j < i ==> !(name <= opts[j].name)
        invariant found.Some? ==> found.value < i && name <= opts[found.value].name
        invariant found.Some? ==> forall j :: 0 <= j < found.value ==> !(name <= opts[j].name)
        invariant found.Some? ==> (ambiguous <==> exists j {:trigger Clashes(opts, name, longOnly, found.value, j)} ::
                                     0 <= j < i && Clashes(opts, name, longOnly, found.value, j))
      {
        if name <= opts[i].name {
          if found.None? {
            found := Some(i);
          } else if Clash(longOnly, opts[found.value], opts[i]) {
            assert Clashes(opts, name, longOnly, found.value, i);
            ambiguous := true;
          }
        }
        i := i + 1;
      }
      if ambiguous {
        m := Ambiguous;
      } else if found.None? {
        m := NoMatch;
      } else {
        m := Unique(found.value);
      }
    }

    /** Read `nextchar` as a long option; -1 with nothing changed when it is no long option. */
    method ProcessLongOption(longOnly: bool, ghost todo: seq<string>) returns (code: int, longind: Option<nat>)
      requires cfg.Valid() && cfg.longopts.Some? && nextchar.Some? && optarg.None? && optind < argv.Length
      requires todo == argv[optind..]
      modifies this`optind, this`optarg, this`optopt, this`nextchar, this`flags
      ensures match TakeLong(cfg, old(nextchar).value, todo, longOnly)
              case None => code == -1 && unchanged(this)
              case Some(t) =>
                && code != -1 && optind == old(optind) + t.used && Cleared()
                && Reports(t.out, code, longind, old(optopt), old(flags))
    {
      hide MatchLong;
      longind := None;
      var text := nextchar.value;
      var nameEnd := 0;
      while nameEnd < |text| && text[nameEnd] != '='
        invariant nameEnd <= |text| && '=' !in text[..nameEnd]
      {
        nameEnd := nameEnd + 1;
      }
      assert nameEnd == NameEnd(text);
      var m := FindLong(cfg.longopts.value, text[..nameEnd], longOnly);
      if m.Ambiguous? {
        nextchar, optind, optopt := Some(""), optind + 1, 0;
        return '?' as int, None;
      }
      if m.NoMatch? {
        if !longOnly || (|argv[optind]| > 1 && argv[optind][1] == '-') || (text != "" && text[0] !in cfg.Letters()) {
          nextchar, optind, optopt := None, optind + 1, 0;
          return '?' as int, None;
        }
        return -1, None;
      }
      var o := cfg.longopts.value[m.index];
      assert o in cfg.longopts.value;
      optind, nextchar := optind + 1, None;
      if nameEnd < |text| {
        if !o.hasArg.NoArgument? {
          optarg := Some(text[nameEnd + 1..]);
        } else {
          optopt := o.val;
          return '?' as int, None;
        }
      } else if o.hasArg.RequiredArgument? {
        if optind < argv.Length {
          optarg := Some(argv[optind]);
          optind := optind + 1;
        } else {
          optopt := o.val;
          return cfg.Missing(), None;
        }
      }
      longind := Some(m.index);
      if o.flag.Some? {
        flags := flags[o.flag.value := o.val];
        return 0, longind;
      }
      return o.val, longind;
    }

    /** Read the next letter of the cluster at `nextchar`. */
    method ShortOption(ghost todo: seq<string>) returns (code: int, longind: Option<nat>)
      requires cfg.Valid() && nextchar.Some? && nextchar.value != "" && optarg.None? && optind < argv.Length
      requires todo == argv[optind..]
      modifies this`optind, this`optarg, this`optopt, this`nextchar, this`flags
      ensures var t := TakeShort(cfg, old(nextchar).value, todo);
              && optind == old(optind) + t.used && Cluster() == t.cluster
              && Reports(t.out, code, longind, old(optopt), old(flags))
    {
      hide TakeLong, Index;
      var letters := cfg.Letters();
      var c, rest := nextchar.value[0], nextchar.value[1..];
      longind := None;
      nextchar := Some(rest);
      var j := Index(letters, c);
      if rest == "" {
        optind := optind + 1;
      }
      if j == |letters| || c == ':' || c == ';' {
        optopt := c as int;
        return '?' as int, None;
      }
      if c == 'W' && At(letters, j + 1, ';') && cfg.longopts.Some? {
        if rest == "" {
          if optind == argv.Length {
            optopt := c as int;
            return cfg.Missing(), None;
          }
          nextchar := Some(argv[optind]);
          code, longind := ProcessLongOption(false, todo[1..]);
          return;
        }
        code, longind := ProcessLongOption(false, todo);
        return;
      }
      if At(letters, j + 1, ':') {
        if rest != "" {
          optarg, optind := Some(rest), optind + 1;
        } else if At(letters, j + 2, ':') {
        } else if optind == argv.Length {
          optopt, nextchar := c as int, None;
          return cfg.Missing(), None;
        } else {
          optarg, optind := Some(argv[optind]), optind + 1;
        }
        nextchar := None;
      }
      return c as int, None;
    }

    /** The call did what the reference scanner does: it reported `r.1` and left the rest as `r.0`. */
    ghost predicate Answers(r: (Scan, Option<Outcome>), code: int, longind: Option<nat>, optopt0: int, flags0: map<nat,
                            int>)
      reads this, argv
    {
      match r.1
      case Some(out) => Valid() && initialized && scan == r.0 && Reports(out, code, longind, optopt0, flags0)
      case None => code == -1 && Partitioned(argv[..], head, optind, r.0)
    }

    method Initialize()
      requires Valid() && !initialized
      modifies this`optind, this`firstNonopt, this`lastNonopt, this`nextchar, this`ordering, this`initialized
      ensures Valid() && initialized && Cleared()
    {
      ghost var a := argv[..];
      if optind == 0 {
        optind := 1;
      }
      firstNonopt, lastNonopt, nextchar := optind, optind, None;
      ordering := cfg.Order();
      initialized := true;
      assert argv[..] == a;
    }

    /** Bring the operands stepped over directly in front of the unread elements. */
    method Gather()
      requires Valid() && initialized && Cleared() && ordering.Permute?
      modifies argv, this`firstNonopt, this`lastNonopt
      ensures Holds(argv[..], head, firstNonopt, optind, optind, scan)
    {
      ghost var a, fn, ln := argv[..], firstNonopt, lastNonopt;
      if firstNonopt != lastNonopt && lastNonopt != optind {
        Exchange();
        HoldsRotated(a, argv[..], head, fn, ln, optind, scan, firstNonopt);
      } else if lastNonopt != optind {
        HoldsEmpty(a, head, firstNonopt, optind, scan);
        firstNonopt := optind;
        assert argv[..] == a;
      }
    }

    /** The PERMUTE block: gather the operands seen so far, then step over those that follow. */
    method StepOverOperands()
      requires Valid() && initialized && Cleared() && ordering.Permute?
      modifies argv, this`optind, this`firstNonopt, this`lastNonopt, this`scan
      ensures Valid() && lastNonopt == optind
      ensures scan == StepOver(cfg, old(scan))
    {
      hide Holds, OperandRun;
      Gather();
      ghost var a, from := argv[..], optind;
      while optind < argv.Length && IsOperand(argv[optind])
        invariant from <= optind <= argv.Length
        invariant forall j :: from <= j < optind ==> IsOperand(argv[j])
        modifies this`optind
      {
        optind := optind + 1;
      }
      lastNonopt := optind;
      assert argv[..] == a && forall j :: from <= j < optind ==> a[j] == argv[j];
      HoldsSteppedOver(cfg, a, head, firstNonopt, from, optind, scan);
      scan := StepOver(cfg, scan);
      assert argv[..] == a;
    }

    /** At `--`: take it, and make operands of everything behind it. */
    method Terminate(ghost s: Scan, ghost to: nat)
      requires firstNonopt <= lastNonopt <= optind < argv.Length && to == optind + 1
      requires firstNonopt == lastNonopt || lastNonopt == optind
      requires Holds(argv[..], head, firstNonopt, lastNonopt, to, s)
      modifies argv, this`optind, this`firstNonopt, this`lastNonopt
      ensures firstNonopt <= lastNonopt == optind == argv.Length
      ensures Partitioned(argv[..], head, firstNonopt, Scan(s.kept, s.skipped + s.todo, [], ""))
    {
      ghost var a, fn, ln := argv[..], firstNonopt, lastNonopt;
      optind := optind + 1;
      assert argv[..] == a && Holds(a, head, fn, ln, optind, s);
      if firstNonopt != lastNonopt && lastNonopt != optind {
        Exchange();
        HoldsRotated(a, argv[..], head, fn, ln, optind, s, firstNonopt);
        HoldsTerminated(argv[..], head, firstNonopt, optind, s);
        a := argv[..];
      } else if firstNonopt == lastNonopt {
        HoldsEmpty(a, head, fn, optind, s);
        HoldsTerminated(a, head, optind, optind, s);
        firstNonopt := optind;
      }
      lastNonopt := argv.Length;
      optind := argv.Length;
      assert argv[..] == a;
    }

    /** The scan is over, because of `--` or because nothing is left. */
    method Conclude()
      requires Valid() && initialized && Cleared() && AtEnd(scan)
      requires firstNonopt == lastNonopt || lastNonopt == optind
      modifies argv, this`optind, this`firstNonopt, this`lastNonopt
      ensures Partitioned(argv[..], head, optind, Ended(scan))
    {
      ghost var a := argv[..];
      HoldsTodo(a, head, firstNonopt, lastNonopt, optind, scan);
      if optind != argv.Length {
        ghost var t := Taken(Outcome(0, None, None, None, None), 1, "");
        ghost var s, to := Advance(scan, t), optind + 1;
        HoldsAdvanced(a, head, firstNonopt, lastNonopt, optind, scan, t, to);
        assert scan.todo[..1] == [scan.todo[0]];
        assert Ended(scan) == Scan(s.kept, s.skipped + s.todo, [], "");
        Terminate(s, to);
      } else {
        HoldsPartitioned(a, head, firstNonopt, lastNonopt, optind, scan);
      }
      a := argv[..];
      if firstNonopt != lastNonopt {
        optind := firstNonopt;
      }
      assert argv[..] == a;
    }

    /** Read the option element at `optind`, as a long option where that is possible. */
    method ReadElement(ghost todo: seq<string>) returns (code: int, longind: Option<nat>)
      requires cfg.Valid() && optarg.None? && optind < argv.Length && todo == argv[optind..]
      requires !IsOperand(argv[optind]) && argv[optind] != "--"
      modifies this`optind, this`optarg, this`optopt, this`nextchar, this`flags
      ensures var t := TakeElement(cfg, todo);
              && optind == old(optind) + t.used && Cluster() == t.cluster
              && Reports(t.out, code, longind, old(optopt), old(flags))
    {
      if cfg.longopts.Some? {
        if argv[optind][1] == '-' {
          nextchar := Some(argv[optind][2..]);
          code, longind := ProcessLongOption(cfg.longOnly, todo);
          return;
        }
        if cfg.longOnly && (|argv[optind]| > 2 || argv[optind][1] !in cfg.Letters()) {
          nextchar := Some(argv[optind][1..]);
          code, longind := ProcessLongOption(true, todo);
          if code != -1 {
            return;
          }
        }
      }
      nextchar := Some(argv[optind][1..]);
      code, longind := ShortOption(todo);
    }

    /** Note that the elements up to `optind` have been taken. */
    ghost method Record(a: seq<string>, was: nat, t: Taken)
      requires cfg.Valid() && initialized && ordering == cfg.Order()
      requires (!ordering.Permute? ==> firstNonopt == lastNonopt)
      requires argv[..] == a && Holds(a, head, firstNonopt, lastNonopt, was, scan) && optind == was + t.used
      requires t.used <= |scan.todo| && Cluster() == t.cluster && (t.cluster != "" ==> t.used == 0 && scan.todo != [])
      modifies this`scan
      ensures Valid() && scan == Advance(old(scan), t)
    {
      HoldsAdvanced(a, head, firstNonopt, lastNonopt, was, scan, t, optind);
      scan := Advance(scan, t);
      assert argv[..] == a;
    }

    /** Hand the operand at `optind` to the caller, as RETURN_IN_ORDER asks for. */
    method ReturnOperand() returns (code: int, longind: Option<nat>)
      requires Valid() && initialized && Cleared() && optarg.None? && optind < argv.Length && !ordering.Permute?
      modifies this`optind, this`optarg, this`scan
      ensures var t := Taken(Outcome(1, Some(argv[old(optind)]), None, None, None), 1, "");
              Answers((Advance(old(scan), t), Some(t.out)), code, longind, old(optopt), old(flags))
    {
      ghost var a, was := argv[..], optind;
      optarg, optind := Some(argv[optind]), optind + 1;
      Record(a, was, Taken(Outcome(1, optarg, None, None, None), 1, ""));
      return 1, None;
    }

    /** Hand the option at `optind` to the caller. */
    method ReturnOption() returns (code: int, longind: Option<nat>)
      requires Valid() && initialized && Cleared() && optarg.None? && optind < argv.Length
      requires !IsOperand(argv[optind]) && argv[optind] != "--"
      modifies this`optind, this`optarg, this`optopt, this`nextchar, this`flags, this`scan
      ensures var t := TakeElement(cfg, old(scan).todo);
              Answers((Advance(old(scan), t), Some(t.out)), code, longind, old(optopt), old(flags))
    {
      ghost var a, was := argv[..], optind;
      HoldsTodo(a, head, firstNonopt, lastNonopt, was, scan);
      code, longind := ReadElement(scan.todo);
      Record(a, was, TakeElement(cfg, scan.todo));
    }

    /** Hand the next option of the current cluster to the caller. */
    method ReturnLetter() returns (code: int, longind: Option<nat>)
      requires Valid() && initialized && !Cleared() && optarg.None?
      modifies this`optind, this`optarg, this`optopt, this`nextchar, this`flags, this`scan
      ensures var t := TakeShort(cfg, old(scan).cluster, old(scan).todo);
              Answers((Advance(old(scan), t), Some(t.out)), code, longind, old(optopt), old(flags))
    {
      ghost var a, was := argv[..], optind;
      HoldsTodo(a, head, firstNonopt, lastNonopt, was, scan);
      code, longind := ShortOption(scan.todo);
      Record(a, was, TakeShort(cfg, scan.cluster, scan.todo));
    }

    /** What a call does with the element in front when the scan is not over. */
    method TakeFront() returns (code: int, longind: Option<nat>)
      requires Valid() && initialized && Cleared() && optarg.None? && !AtEnd(scan)
      requires ordering.Permute? ==> lastNonopt == optind && !IsOperand(scan.todo[0])
      modifies this`optind, this`optarg, this`optopt, this`nextchar, this`flags, this`scan
      ensures Answers(AtElement(cfg, old(scan)), code, longind, old(optopt), old(flags))
    {
      HoldsTodo(argv[..], head, firstNonopt, lastNonopt, optind, scan);
      if !IsOperand(argv[optind]) {
        code, longind := ReturnOption();
      } else if ordering.RequireOrder? {
        HoldsPartitioned(argv[..], head, firstNonopt, lastNonopt, optind, scan);
        return -1, None;
      } else {
        code, longind := ReturnOperand();
      }
    }

    /** What a call does once the operands in front have been stepped over. */
    method AtBoundary() returns (code: int, longind: Option<nat>)
      requires Valid() && initialized && Cleared() && optarg.None?
      requires ordering.Permute? ==> lastNonopt == optind && (!AtEnd(scan) ==> !IsOperand(scan.todo[0]))
      modifies argv, this`optind, this`firstNonopt, this`lastNonopt, this`optarg, this`optopt, this`nextchar
      modifies this`flags, this`scan
      ensures Answers(AtElement(cfg, old(scan)), code, longind, old(optopt), old(flags))
    {
      HoldsTodo(argv[..], head, firstNonopt, lastNonopt, optind, scan);
      if optind == argv.Length || argv[optind] == "--" {
        Conclude();
        return -1, None;
      }
      code, longind := TakeFront();
    }

    /** What a call does when no cluster is being read. */
    method NextElement() returns (code: int, longind: Option<nat>)
      requires Valid() && initialized && Cleared() && optarg.None?
      modifies argv, this`optind, this`firstNonopt, this`lastNonopt, this`optarg, this`optopt, this`nextchar
      modifies this`flags, this`scan
      ensures Answers(AtElement(cfg, StepOver(cfg, old(scan))), code, longind, old(optopt), old(flags))
    {
      if ordering.Permute? {
        StepOverOperands();
      }
      code, longind := AtBoundary();
    }

    /** One call. */
    method Next() returns (code: int, longind: Option<nat>)
      requires Valid()
      modifies argv, this
      ensures Answers(RefNext(cfg, old(scan)), code, longind, old(optopt), old(flags))
    {
      hide Holds;
      optarg := None;
      if !initialized {
        Initialize();
      }
      ghost var s := scan;
      if !Cleared() {
        ghost var t := TakeShort(cfg, s.cluster, s.todo);
        assert RefNext(cfg, s) == (Advance(s, t), Some(t.out));
        code, longind := ReturnLetter();
      } else {
        assert RefNext(cfg, s) == AtElement(cfg, StepOver(cfg, s));
        code, longind := NextElement();
      }
    }

    /** Call until the end is reported. */
    method ScanToEnd() returns (codes: seq<int>)
      requires Valid()
      modifies argv, this
      ensures var (end, outs) := RefRun(cfg, old(scan));
              codes == Codes(outs) && Partitioned(argv[..], head, optind, end)
    {
      codes := [];
      ghost var s, outs, run := scan, [], RefRun(cfg, scan);
      var done := false;
      assert outs + run.1 == run.1;
      while !done
        invariant WellFormed(s)
        invariant !done ==> Valid() && scan == s && Leads(cfg, s, outs, run)
        invariant done ==> Partitioned(argv[..], head, optind, run.0) && run.1 == outs
        invariant codes == Codes(outs)
        decreases if done then 0 else 1 + Measure(s)
      {
        var code, longind := Next();
        ghost var r := RefNext(cfg, s);
        if code == -1 {
          LastStep(cfg, s, outs, run);
          done := true;
        } else {
          RunStep(cfg, s, outs, run);
          CodesAppend(outs, r.1.value);
          s, outs := r.0, outs + [r.1.value];
          codes := codes + [code];
        }
      }
    }

    /**
     In PERMUTE order a fresh scan stably partitions `argv`: the marked elements,
     then the others, with `optind` in between.
     */
    method ScanAll() returns (codes: seq<int>)
      requires Valid() && !initialized && cfg.Order().Permute? && scan.kept == [] && scan.skipped == []
      modifies argv, this
      ensures var todo := old(scan).todo;
              && old(argv[..]) == head + todo
              && argv[..] == head + OptionsOf(cfg, todo) + OperandsOf(cfg, todo)
              && optind == |head| + |OptionsOf(cfg, todo)|
      ensures codes == Codes(RefRun(cfg, old(scan)).1)
      ensures AsWritten(cfg, head, old(scan).todo, argv[..], optind, codes)
    {
      ghost var s := scan;
      StartDestined(cfg, s);
      assert argv[..] == head + s.todo;
      codes := ScanToEnd();
      ghost var end := RefRun(cfg, s).0;
      assert head + end.kept + end.skipped + [] == head + end.kept + end.skipped;
      ReadAsWritten(cfg, head, s, argv[..], optind, codes);
    }
  }

  /**
   However the command line is understood to be written: what is reported are the codes
   of its options, and `optind` stands between the options and the operands.
   */
  ghost predicate AsWritten(cfg: Config, head: seq<string>, todo: seq<string>, a: seq<string>, optind: nat,
                            codes: seq<int>) {
    forall silent, ds, items, rest |
        Layout.Declares(cfg, silent, ds) && Layout.AreItems(cfg, ds, items, rest) && Layout.Line(items, rest) == todo ::
      && codes == Codes(Layout.Reports(cfg, silent, ds, items))
      && a == head + Layout.KeptOf(Permute, items, rest) + Layout.SkippedOf(Permute, items, rest)
      && optind == |head| + |Layout.KeptOf(Permute, items, rest)|
  }

  lemma ReadAsWritten(cfg: Config, head: seq<string>, s: Scan, a: seq<string>, optind: nat, codes: seq<int>)
    requires s == Scan([], [], s.todo, "") && cfg.Order().Permute? && codes == Codes(RefRun(cfg, s).1)
    requires a == head + OptionsOf(cfg, s.todo) + OperandsOf(cfg, s.todo) && optind == |head| + |OptionsOf(cfg, s.todo)|
    ensures AsWritten(cfg, head, s.todo, a, optind, codes)
  {
    hide Layout.Declares, Layout.AreItems, Layout.Line, Layout.Reports, Layout.KeptOf, Layout.SkippedOf;
    hide OptionsOf, OperandsOf, RefRun;
    forall silent, ds, items, rest |
        Layout.Declares(cfg, silent, ds) && Layout.AreItems(cfg, ds, items, rest) && Layout.Line(items, rest) == s.todo
      ensures codes == Codes(Layout.Reports(cfg, silent, ds, items))
      ensures a == head + Layout.KeptOf(Permute, items, rest) + Layout.SkippedOf(Permute, items, rest)
      ensures optind == |head| + |Layout.KeptOf(Permute, items, rest)|
    {
      Layout.CommandLine(cfg, silent, ds, items, rest);
    }
  }

  /** The run goes on from `s` after having reported `outs`. */
  ghost predicate Leads(cfg: Config, s: Scan, outs: seq<Outcome>, run: (Scan, seq<Outcome>))
    requires WellFormed(s)
  {
    run == (RefRun(cfg, s).0, outs + RefRun(cfg, s).1)
  }

  /** One call of a run. */
  lemma RunStep(cfg: Config, s: Scan, outs: seq<Outcome>, run: (Scan, seq<Outcome>))
    requires WellFormed(s) && RefNext(cfg, s).1.Some? && Leads(cfg, s, outs, run)
    ensures var (s', out) := RefNext(cfg, s); Measure(s') < Measure(s) && Leads(cfg, s', outs + [out.value], run)
  {
    NextDecreases(cfg, s);
    var (s', out) := RefNext(cfg, s);
    assert RefRun(cfg, s) == (RefRun(cfg, s').0, [out.value] + RefRun(cfg, s').1);
    assert outs + ([out.value] + RefRun(cfg, s').1) == (outs + [out.value]) + RefRun(cfg, s').1;
  }

  /** The last call of a run. */
  lemma LastStep(cfg: Config, s: Scan, outs: seq<Outcome>, run: (Scan, seq<Outcome>))
    requires WellFormed(s) && RefNext(cfg, s).1.None? && Leads(cfg, s, outs, run)
    ensures run == (RefNext(cfg, s).0, outs)
  {
    assert RefRun(cfg, s) == (RefNext(cfg, s).0, []) && outs + [] == outs;
  }

  /** How a fresh scan in PERMUTE order ends. */
  lemma StartDestined(cfg: Config, s: Scan)
    requires s.kept + s.skipped == [] && s.cluster == "" && cfg.Order().Permute?
    ensures var end := RefRun(cfg, s).0;
            end.kept == OptionsOf(cfg, s.todo) && end.skipped == OperandsOf(cfg, s.todo) && end.todo == []
  {
    RunPartitions(cfg, s);
    assert s.kept == [] && s.skipped == [];
    assert [] + OptionsOf(cfg, s.todo) == OptionsOf(cfg, s.todo);
    assert [] + OperandsOf(cfg, s.todo) == OperandsOf(cfg, s.todo);
  }

  ghost function Codes(outs: seq<Outcome>): seq<int> {
    seq(|outs|, i requires 0 <= i < |outs| => outs[i].code)
  }

  lemma CodesAppend(outs: seq<Outcome>, out: Outcome)
    ensures Codes(outs + [out]) == Codes(outs) + [out.code]
  {
  }
}
