/**
 * What one `output.<ref>.<action>[.<args>]` specifier does to the snapshot,
 * the changed flag and the exit trace, and what a list of them does when it
 * is worked through in order and stopped at the first failure. The
 * imperative console is proved to follow these functions.
 */
module Specifiers {
  import opened Wrappers
  import opened QtText
  import opened Outputs

  /** Snapshot, m_changed, and the codes passed to qApp->exit so far. */
  datatype State = State(outs: seq<Output>, changed: bool, exits: seq<int>)

  /** Continue: go on with the next specifier. Stop: the parse loop returned. */
  datatype Outcome = Continue(st: State) | Stop(st: State)

  /** The exit codes a failing action leaves behind (setEnabled's 8 is followed by the caller's 1). */
  const DispatchTraces: set<seq<int>> := {[1], [2], [5], [9], [8, 1]}

  /** The exit codes a failing specifier leaves behind: a failing action, or 3 for an unresolved reference. */
  const FailureTraces: set<seq<int>> := DispatchTraces + {[3]}

  /** Specifiers with more than two segments whose first segment is `output` are acted on; the rest are skipped. */
  predicate Addressed(arg: string)
  {
    var ops := Split(arg, '.');
    |ops| > 2 && ops[0] == "output"
  }

  // ---------------------------------------------------------------------------
  // Resolving <ref>

  /** The last output whose name is `name`, if any. */
  function LastNamed(outs: seq<Output>, name: string): (r: Option<nat>)
    ensures r.None? <==> forall k :: 0 <= k < |outs| ==> outs[k].name != name
    ensures r.Some? ==> r.value < |outs| && outs[r.value].name == name
    ensures r.Some? ==> forall k :: r.value < k < |outs| ==> outs[k].name != name
  {
    if |outs| == 0 then None
    else if outs[|outs| - 1].name == name then Some(|outs| - 1)
    else LastNamed(outs[..|outs| - 1], name)
  }

  /** The id the name scan leaves in output_id: the last named output's id, or -1. */
  function NamedId(outs: seq<Output>, name: string): int32
  {
    match LastNamed(outs, name)
    case Some(k) => outs[k].id
    case None => -1
  }

  /** output_id after the name scan and, when it is still -1, the integer fallback; None means exit 3. */
  function Resolve(outs: seq<Output>, ref: string): Option<int32>
  {
    var named := NamedId(outs, ref);
    if named != -1 then Some(named) else ParseInt(ref)
  }

  /** A name wins over a number: when several outputs carry the name, the last one's id is used. */
  lemma ResolveByName(outs: seq<Output>, ref: string, k: nat)
    requires k < |outs| && outs[k].name == ref && outs[k].id != -1
    requires forall j :: k < j < |outs| ==> outs[j].name != ref
    ensures Resolve(outs, ref) == Some(outs[k].id)
  {
    var r := LastNamed(outs, ref);
    assert r.Some? && r.value == k;
  }

  /** Without a name match the reference is read as an int, and it fails exactly when that read fails. */
  lemma ResolveByNumber(outs: seq<Output>, ref: string)
    requires forall k :: 0 <= k < |outs| ==> outs[k].name != ref
    ensures Resolve(outs, ref) == ParseInt(ref)
  {
  }

  /** An output named by a numeral with id -1 is not found by name: the numeral is read instead. */
  lemma ResolveMinusOneFallsBack(outs: seq<Output>, n: int32)
    requires forall k :: 0 <= k < |outs| && outs[k].name == IntToString(n) ==> outs[k].id == -1
    ensures Resolve(outs, IntToString(n)) == Some(n)
  {
    ParseIntRoundTrip(n);
  }

  // ---------------------------------------------------------------------------
  // Argument parsers

  /** The rotation words, compared after lower-casing; `none` and `normal` both mean no rotation. */
  function RotationArg(word: string): (r: Option<Rotation>)
    ensures r.None? <==> ToLower(word) !in {"none", "normal", "left", "right", "inverted"}
    ensures ToLower(word) in {"none", "normal"} ==> r == Some(NoRotation)
  {
    var w := ToLower(word);
    if w == "none" || w == "normal" then Some(NoRotation)
    else if w == "left" then Some(Left)
    else if w == "right" then Some(Right)
    else if w == "inverted" then Some(Inverted)
    else None
  }

  function VrrPolicyArg(word: string): (r: Option<VrrPolicy>)
    ensures r.None? <==> ToLower(word) !in {"never", "always", "automatic"}
  {
    var w := ToLower(word);
    if w == "never" then Some(Never)
    else if w == "always" then Some(Always)
    else if w == "automatic" then Some(VrrPolicy.Automatic)
    else None
  }

  function RgbRangeArg(word: string): (r: Option<RgbRange>)
    ensures r.None? <==> ToLower(word) !in {"automatic", "full", "limited"}
  {
    var w := ToLower(word);
    if w == "automatic" then Some(RgbRange.Automatic)
    else if w == "full" then Some(Full)
    else if w == "limited" then Some(Limited)
    else None
  }

  /** A spelling of each rotation that the parser accepts. */
  function RotationWord(r: Rotation): string
  {
    match r
    case NoRotation => "normal"
    case Left => "left"
    case Right => "right"
    case Inverted => "inverted"
  }

  function VrrPolicyWord(p: VrrPolicy): string
  {
    match p
    case Never => "never"
    case Always => "always"
    case Automatic => "automatic"
  }

  function RgbRangeWord(r: RgbRange): string
  {
    match r
    case Automatic => "automatic"
    case Full => "full"
    case Limited => "limited"
  }

  /** Every rotation can be asked for, in any letter case. */
  lemma RotationArgRoundTrip(r: Rotation)
    ensures RotationArg(RotationWord(r)) == Some(r)
    ensures RotationArg(ToUpper(RotationWord(r))) == Some(r)
  {
    LowerOfUpper(RotationWord(r));
    assert ToLower(RotationWord(r)) == RotationWord(r);
  }

  lemma VrrPolicyArgRoundTrip(p: VrrPolicy)
    ensures VrrPolicyArg(VrrPolicyWord(p)) == Some(p)
    ensures VrrPolicyArg(ToUpper(VrrPolicyWord(p))) == Some(p)
  {
    LowerOfUpper(VrrPolicyWord(p));
    assert ToLower(VrrPolicyWord(p)) == VrrPolicyWord(p);
  }

  lemma RgbRangeArgRoundTrip(r: RgbRange)
    ensures RgbRangeArg(RgbRangeWord(r)) == Some(r)
    ensures RgbRangeArg(ToUpper(RgbRangeWord(r))) == Some(r)
  {
    LowerOfUpper(RgbRangeWord(r));
    assert ToLower(RgbRangeWord(r)) == RgbRangeWord(r);
  }

  /** The word parsers ignore letter case. */
  lemma WordArgsIgnoreCase(word: string)
    ensures RotationArg(ToUpper(word)) == RotationArg(word)
    ensures VrrPolicyArg(ToUpper(word)) == VrrPolicyArg(word)
    ensures RgbRangeArg(ToUpper(word)) == RgbRangeArg(word)
  {
    LowerOfUpper(word);
  }

  /**
   * The overscan argument: toInt() without a flag (0 when not numeric), stored
   * in a uint32_t (negative values wrap), then anything above 100 is refused.
   */
  function OverscanArg(text: string): (r: Option<uint32>)
    ensures r.Some? ==> r.value <= 100
    ensures ParseInt(text).None? ==> r == Some(0)
    ensures ParseInt(text).Some? ==>
      (r.Some? <==> 0 <= ParseInt(text).value <= 100) && (r.Some? ==> r.value == ParseInt(text).value)
  {
    var v := ToUint32(ToIntOrZero(text));
    if v > 100 then None else Some(v)
  }

  /**
   * The position argument `x,y`: exactly two comma-separated parts; x is
   * toInt(&ok) of the first part (0 when not numeric) but only the second
   * conversion's ok is looked at, because it overwrites the first.
   */
  function PositionArg(text: string): (r: Option<Point>)
    ensures r.Some? <==> |Split(text, ',')| == 2 && ParseInt(Split(text, ',')[1]).Some?
    ensures r.Some? ==> r.value.y == ParseInt(Split(text, ',')[1]).value
    ensures r.Some? ==> r.value.x == ToIntOrZero(Split(text, ',')[0])
  {
    var parts := Split(text, ',');
    if |parts| != 2 then None
    else
      match ParseInt(parts[1])
      case None => None
      case Some(y) => Some(Point(ToIntOrZero(parts[0]), y))
  }

  /** Printing a point as `x,y` and parsing it gives the point back. */
  lemma PositionArgRoundTrip(p: Point)
    ensures PositionArg(IntToString(p.x) + "," + IntToString(p.y)) == Some(p)
  {
    NumeralLacks(p.x, ',');
    NumeralLacks(p.y, ',');
    var parts := [IntToString(p.x), IntToString(p.y)];
    assert Join(parts, ',') == IntToString(p.x) + "," + IntToString(p.y);
    SplitJoin(parts, ',');
    ParseIntRoundTrip(p.x);
    ParseIntRoundTrip(p.y);
  }

  /** Only y's conversion is checked: an x that is not a number becomes 0. */
  lemma PositionArgIgnoresBadX(xText: string, y: int32)
    requires ',' !in xText && ParseInt(xText).None?
    ensures PositionArg(xText + "," + IntToString(y)) == Some(Point(0, y))
  {
    NumeralLacks(y, ',');
    var parts := [xText, IntToString(y)];
    assert Join(parts, ',') == xText + "," + IntToString(y);
    SplitJoin(parts, ',');
    ParseIntRoundTrip(y);
  }

  /**
   * The text handed to toDouble for `scale.<a>` and `scale.<a>.<b>`: commas
   * in the fourth segment become dots, and a fifth segment is appended after a dot.
   */
  function ScaleText(ops: seq<string>): string
    requires |ops| == 4 || |ops| == 5
  {
    var first := Replace(ops[3], ',', '.');
    if |ops| == 5 then first + "." + ops[4] else first
  }

  /** The specifier `output.<ref>.<action>.<args...>` written out. */
  function Specifier(ref: string, action: string, args: seq<string>): string
  {
    Join(["output", ref, action] + args, '.')
  }

  /** A specifier built from dot-free pieces splits back into those pieces. */
  lemma SpecifierSegments(ref: string, action: string, args: seq<string>)
    requires '.' !in ref && '.' !in action && SeparatorFree(args, '.')
    ensures Split(Specifier(ref, action, args), '.') == ["output", ref, action] + args
  {
    var parts := ["output", ref, action] + args;
    assert SeparatorFree(parts, '.') by {
      assert '.' !in "output";
      forall i | 3 <= i < |parts| ensures '.' !in parts[i] {
        assert parts[i] == args[i - 3];
      }
    }
    SplitJoin(parts, '.');
  }

  /** `scale.2,5` and `scale.2.5` ask for the same number, written `2.5`. */
  lemma ScaleSeparatorsAgree(ref: string, a: string, b: string)
    requires ',' !in a && '.' !in a && ',' !in b && '.' !in b && '.' !in ref
    ensures var comma := Split(Specifier(ref, "scale", [a + "," + b]), '.');
      |comma| == 4 && ScaleText(comma) == a + "." + b
    ensures var dot := Split(Specifier(ref, "scale", [a, b]), '.');
      |dot| == 5 && ScaleText(dot) == a + "." + b
  {
    var ab := a + "," + b;
    assert '.' !in ab by {
      assert forall i :: 0 <= i < |ab| ==> ab[i] != '.';
    }
    SpecifierSegments(ref, "scale", [ab]);
    SpecifierSegments(ref, "scale", [a, b]);
    assert Replace(a, ',', '.') == a;
    assert Replace(ab, ',', '.') == a + "." + b;
  }

  // ---------------------------------------------------------------------------
  // One specifier

  /** A setter call with its caller: on success the change is made and the flag set, otherwise `failure` is exited with. */
  function Setter(st: State, id: int, c: Change, failure: seq<int>): Outcome
  {
    if HasId(st.outs, id) then Continue(State(Update(st.outs, id, c), true, st.exits))
    else Stop(st.(exits := st.exits + failure))
  }

  function Fail(st: State, code: int): Outcome
  {
    Stop(st.(exits := st.exits + [code]))
  }

  /** The dispatch on the action keyword and the exact segment count, once <ref> is resolved to `id`. */
  function Perform(st: State, ops: seq<string>, id: int32, toDouble: string -> Option<real>): Outcome
    requires |ops| >= 3
  {
    var action := ops[2];
    if |ops| == 3 && action == "primary" then
      if HasId(st.outs, id) then Continue(State(MakePrimary(st.outs, id), true, st.exits))
      else Fail(st, 1)
    else if |ops| == 3 && action == "enable" then
      Setter(st, id, Enable(true), [8, 1])
    else if |ops| == 3 && action == "disable" then
      Setter(st, id, Enable(false), [8, 1])
    else if |ops| == 4 && action == "mode" then
      if ModeTarget(st.outs, id, ops[3]).Some? then
        Continue(State(SelectMode(st.outs, id, ops[3]), true, st.exits))
      else Fail(st, 9)
    else if |ops| == 4 && action == "position" then
      match PositionArg(ops[3])
      case None => Fail(st, 5)
      case Some(p) => Setter(st, id, MoveTo(p), [1])
    else if (|ops| == 4 || |ops| == 5) && action == "scale" then
      match toDouble(ScaleText(ops))
      case None => Fail(st, 9)
      case Some(v) => if v == 0.0 then Fail(st, 9) else Setter(st, id, ScaleTo(v), [9])
    else if |ops| == 4 && (action == "orientation" || action == "rotation") then
      match RotationArg(ops[3])
      case None => Fail(st, 9)
      case Some(r) => Setter(st, id, RotateTo(r), [9])
    else if |ops| == 4 && action == "overscan" then
      match OverscanArg(ops[3])
      case None => Fail(st, 9)
      case Some(v) => Setter(st, id, OverscanTo(v), [9])
    else if |ops| == 4 && action == "vrrpolicy" then
      match VrrPolicyArg(ops[3])
      case None => Fail(st, 9)
      case Some(p) => Setter(st, id, VrrTo(p), [9])
    else if |ops| == 4 && action == "rgbrange" then
      match RgbRangeArg(ops[3])
      case None => Fail(st, 9)
      case Some(r) => Setter(st, id, RgbTo(r), [9])
    else
      Fail(st, 2)
  }

  /** One pass of the parse loop's body. */
  function Step(st: State, arg: string, toDouble: string -> Option<real>): Outcome
  {
    var ops := Split(arg, '.');
    if |ops| <= 2 || ops[0] != "output" then Continue(st)
    else
      match Resolve(st.outs, ops[1])
      case None => Fail(st, 3)
      case Some(id) => Perform(st, ops, id, toDouble)
  }

  /** The whole parse loop: specifiers in order, leaving the loop at the first failure. */
  function Run(st: State, args: seq<string>, toDouble: string -> Option<real>): Outcome
    decreases |args|
  {
    if |args| == 0 then Continue(st)
    else
      match Step(st, args[0], toDouble)
      case Stop(s) => Stop(s)
      case Continue(s) => Run(s, args[1..], toDouble)
  }

  // ---------------------------------------------------------------------------
  // Properties of one specifier

  /** What any specifier can and cannot do: a failure changes nothing but the exit trace. */
  predicate StepRespects(st: State, o: Outcome)
  {
    RespectsWith(st, o, FailureTraces)
  }

  /** As StepRespects, with the failure traces drawn from `traces`. */
  predicate RespectsWith(st: State, o: Outcome, traces: set<seq<int>>)
  {
    && SameShape(st.outs, o.st.outs)
    && (st.changed ==> o.st.changed)
    && (o.st.outs != st.outs ==> o.st.changed)
    && (o.Continue? ==> o.st.exits == st.exits)
    && (o.Stop? ==> o.st.outs == st.outs && o.st.changed == st.changed
                    && |o.st.exits| >= |st.exits| && o.st.exits[..|st.exits|] == st.exits
                    && o.st.exits[|st.exits|..] in traces)
  }

  lemma SetterRespects(st: State, id: int, c: Change, failure: seq<int>)
    requires failure in DispatchTraces
    ensures RespectsWith(st, Setter(st, id, c, failure), DispatchTraces)
  {
    var o := Setter(st, id, c, failure);
    if o.Stop? {
      assert o.st.exits[|st.exits|..] == failure;
    }
  }

  lemma FailRespects(st: State, code: int, traces: set<seq<int>>)
    requires [code] in traces
    ensures RespectsWith(st, Fail(st, code), traces)
  {
    assert Fail(st, code).st.exits[|st.exits|..] == [code];
  }

  lemma PerformRespects(st: State, ops: seq<string>, id: int32, toDouble: string -> Option<real>)
    requires |ops| >= 3
    ensures RespectsWith(st, Perform(st, ops, id, toDouble), DispatchTraces)
  {
    FailRespects(st, 1, DispatchTraces);
    FailRespects(st, 2, DispatchTraces);
    FailRespects(st, 5, DispatchTraces);
    FailRespects(st, 9, DispatchTraces);
    var action := ops[2];
    if |ops| == 3 && action == "primary" {
    } else if |ops| == 3 && (action == "enable" || action == "disable") {
      SetterRespects(st, id, Enable(action == "enable"), [8, 1]);
    } else if |ops| == 4 && action == "mode" {
      if ModeTarget(st.outs, id, ops[3]).Some? {
        var r := SelectMode(st.outs, id, ops[3]);
        assert SameShape(st.outs, r);
      }
    } else if |ops| == 4 && action == "position" {
      if PositionArg(ops[3]).Some? {
        SetterRespects(st, id, MoveTo(PositionArg(ops[3]).value), [1]);
      }
    } else if (|ops| == 4 || |ops| == 5) && action == "scale" {
      var v := toDouble(ScaleText(ops));
      if v.Some? {
        SetterRespects(st, id, ScaleTo(v.value), [9]);
      }
    } else if |ops| == 4 && (action == "orientation" || action == "rotation") {
      if RotationArg(ops[3]).Some? {
        SetterRespects(st, id, RotateTo(RotationArg(ops[3]).value), [9]);
      }
    } else if |ops| == 4 && action == "overscan" {
      if OverscanArg(ops[3]).Some? {
        SetterRespects(st, id, OverscanTo(OverscanArg(ops[3]).value), [9]);
      }
    } else if |ops| == 4 && action == "vrrpolicy" {
      if VrrPolicyArg(ops[3]).Some? {
        SetterRespects(st, id, VrrTo(VrrPolicyArg(ops[3]).value), [9]);
      }
    } else if |ops| == 4 && action == "rgbrange" {
      if RgbRangeArg(ops[3]).Some? {
        SetterRespects(st, id, RgbTo(RgbRangeArg(ops[3]).value), [9]);
      }
    }
  }

  /** Every branch of the dispatch that goes through sets the flag, even when the value written is the one already held. */
  lemma PerformSetsFlag(st: State, ops: seq<string>, id: int32, toDouble: string -> Option<real>)
    requires |ops| >= 3
    ensures Perform(st, ops, id, toDouble).Continue? ==> Perform(st, ops, id, toDouble).st.changed
  {
  }

  /** Every specifier keeps the outputs' identity, only sets the flag, and fails with one of the documented codes. */
  lemma StepRespectsContract(st: State, arg: string, toDouble: string -> Option<real>)
    ensures StepRespects(st, Step(st, arg, toDouble))
    ensures Addressed(arg) && Step(st, arg, toDouble).Continue? ==> Step(st, arg, toDouble).st.changed
  {
    var ops := Split(arg, '.');
    if |ops| > 2 && ops[0] == "output" {
      FailRespects(st, 3, FailureTraces);
      var id := Resolve(st.outs, ops[1]);
      if id.Some? {
        PerformRespects(st, ops, id.value, toDouble);
        assert DispatchTraces <= FailureTraces;
        PerformSetsFlag(st, ops, id.value, toDouble);
      }
    }
  }

  /** A specifier that is not addressed to an output is skipped without a trace. */
  lemma StepSkips(st: State, arg: string, toDouble: string -> Option<real>)
    requires !Addressed(arg)
    ensures Step(st, arg, toDouble) == Continue(st)
  {
  }

  /** An addressed specifier whose reference is neither a name nor an int stops the loop with 3. */
  lemma StepUnresolved(st: State, arg: string, toDouble: string -> Option<real>)
    requires Addressed(arg) && Resolve(st.outs, Split(arg, '.')[1]).None?
    ensures Step(st, arg, toDouble) == Stop(st.(exits := st.exits + [3]))
  {
  }

  /** The action keyword together with the segment count that one branch of the dispatch accepts. */
  predicate KnownAction(ops: seq<string>)
    requires |ops| >= 3
  {
    || (|ops| == 3 && ops[2] in {"primary", "enable", "disable"})
    || (|ops| == 4 && ops[2] in {"mode", "position", "scale", "orientation", "rotation", "overscan", "vrrpolicy", "rgbrange"})
    || (|ops| == 5 && ops[2] == "scale")
  }

  /** An unknown action, or a known one with the wrong number of segments, stops the loop with 2. */
  lemma StepUnknownAction(st: State, arg: string, toDouble: string -> Option<real>)
    requires Addressed(arg) && Resolve(st.outs, Split(arg, '.')[1]).Some?
    requires !KnownAction(Split(arg, '.'))
    ensures Step(st, arg, toDouble) == Stop(st.(exits := st.exits + [2]))
  {
  }

  /** setPrimary through a specifier leaves exactly the outputs with the resolved id primary. */
  lemma StepPrimary(st: State, ref: string, id: int32, toDouble: string -> Option<real>)
    requires '.' !in ref && Resolve(st.outs, ref) == Some(id)
    ensures var o := Step(st, Specifier(ref, "primary", []), toDouble);
      && (HasId(st.outs, id) ==> o == Continue(State(MakePrimary(st.outs, id), true, st.exits)))
      && (!HasId(st.outs, id) ==> o == Stop(st.(exits := st.exits + [1])))
  {
    SpecifierSegments(ref, "primary", []);
  }

  /** `mode.<m>` succeeds exactly when the resolved output offers a mode with that id or label. */
  lemma StepMode(st: State, ref: string, id: int32, m: string, toDouble: string -> Option<real>)
    requires '.' !in ref && '.' !in m && Resolve(st.outs, ref) == Some(id)
    ensures var o := Step(st, Specifier(ref, "mode", [m]), toDouble);
      && (o.Continue? <==> exists i :: 0 <= i < |st.outs| && Offers(st.outs[i], id, m))
      && (o.Continue? ==> o.st == State(SelectMode(st.outs, id, m), true, st.exits))
      && (o.Stop? ==> o.st == st.(exits := st.exits + [9]))
  {
    var ops := ["output", ref, "mode", m];
    SpecifierSegments(ref, "mode", [m]);
    assert Step(st, Specifier(ref, "mode", [m]), toDouble) == Perform(st, ops, id, toDouble);
  }

  /** `overscan.<n>` is refused with 9 above 100, including negative n, and applied from 0 to 100. */
  lemma StepOverscan(st: State, ref: string, id: int32, n: int32, toDouble: string -> Option<real>)
    requires '.' !in ref && Resolve(st.outs, ref) == Some(id)
    ensures var o := Step(st, Specifier(ref, "overscan", [IntToString(n)]), toDouble);
      && (!(0 <= n <= 100) ==> o == Stop(st.(exits := st.exits + [9])))
      && (0 <= n <= 100 && HasId(st.outs, id) ==>
            o == Continue(State(Update(st.outs, id, OverscanTo(n)), true, st.exits)))
  {
    var numeral := IntToString(n);
    NumeralLacks(n, '.');
    StepPerforms(st, ref, "overscan", [numeral], id, toDouble);
    PerformOverscan(st, ["output", ref, "overscan", numeral], id, n, toDouble);
  }

  /** A specifier whose <ref> resolves goes to the dispatch with its segments. */
  lemma StepPerforms(st: State, ref: string, action: string, args: seq<string>, id: int32,
                     toDouble: string -> Option<real>)
    requires '.' !in ref && '.' !in action && SeparatorFree(args, '.')
    requires Resolve(st.outs, ref) == Some(id)
    ensures Step(st, Specifier(ref, action, args), toDouble) ==
      Perform(st, ["output", ref, action] + args, id, toDouble)
  {
    SpecifierSegments(ref, action, args);
  }

  lemma PerformOverscan(st: State, ops: seq<string>, id: int32, n: int32, toDouble: string -> Option<real>)
    requires |ops| == 4 && ops[2] == "overscan" && ops[3] == IntToString(n)
    ensures Perform(st, ops, id, toDouble) ==
      if 0 <= n <= 100 then Setter(st, id, OverscanTo(n), [9]) else Fail(st, 9)
  {
    ParseIntRoundTrip(n);
    var arg := OverscanArg(ops[3]);
    assert arg == if 0 <= n <= 100 then Some(n) else None;
  }

  // ---------------------------------------------------------------------------
  // Properties of the whole loop

  /** Running two lists one after the other is running their concatenation. */
  lemma {:induction false} RunAppend(st: State, args: seq<string>, more: seq<string>, toDouble: string -> Option<real>)
    ensures Run(st, args + more, toDouble) ==
      match Run(st, args, toDouble)
      case Stop(s) => Stop(s)
      case Continue(s) => Run(s, more, toDouble)
    decreases |args|
  {
    if |args| > 0 {
      assert (args + more)[0] == args[0];
      assert (args + more)[1..] == args[1..] + more;
      match Step(st, args[0], toDouble)
      case Stop(s) =>
      case Continue(s) => RunAppend(s, args[1..], more, toDouble);
    } else {
      assert args + more == more;
    }
  }

  /** Fail fast: once a specifier has stopped the loop, no later specifier is looked at. */
  lemma FailFast(st: State, args: seq<string>, more: seq<string>, toDouble: string -> Option<real>)
    requires Run(st, args, toDouble).Stop?
    ensures Run(st, args + more, toDouble) == Run(st, args, toDouble)
  {
    RunAppend(st, args, more, toDouble);
  }

  /** Running one more specifier after a prefix that continued is one more Step. */
  lemma RunNext(st: State, args: seq<string>, i: nat, mid: State, toDouble: string -> Option<real>)
    requires i < |args| && Run(st, args[..i], toDouble) == Continue(mid)
    ensures Run(st, args[..i + 1], toDouble) == Step(mid, args[i], toDouble)
  {
    assert args[..i + 1] == args[..i] + [args[i]];
    RunAppend(st, args[..i], [args[i]], toDouble);
    assert [args[i]][1..] == [];
  }

  /** A prefix that stopped decides the run of the whole list. */
  lemma RunStopped(st: State, args: seq<string>, i: nat, toDouble: string -> Option<real>)
    requires i <= |args| && Run(st, args[..i], toDouble).Stop?
    ensures Run(st, args, toDouble) == Run(st, args[..i], toDouble)
  {
    FailFast(st, args[..i], args[i..], toDouble);
    assert args[..i] + args[i..] == args;
  }

  /** A list with nothing addressed to an output leaves everything as it was: no change, no flag, no exit. */
  lemma {:induction false} RunUnaddressed(st: State, args: seq<string>, toDouble: string -> Option<real>)
    requires forall i :: 0 <= i < |args| ==> !Addressed(args[i])
    ensures Run(st, args, toDouble) == Continue(st)
  {
    if |args| > 0 {
      RunUnaddressed(st, args[1..], toDouble);
    }
  }

  /**
   * The whole loop keeps each output's identity and modes, sets but never
   * clears the flag, sets it whenever the snapshot differs, exits with nothing
   * when every specifier went through, and otherwise with exactly one
   * failure's codes.
   */
  lemma {:induction false} RunRespects(st: State, args: seq<string>, toDouble: string -> Option<real>)
    ensures var o := Run(st, args, toDouble);
      && SameShape(st.outs, o.st.outs)
      && (st.changed ==> o.st.changed)
      && (o.st.outs != st.outs ==> o.st.changed)
      && (o.Continue? ==> o.st.exits == st.exits)
      && (o.Stop? ==> |o.st.exits| >= |st.exits| && o.st.exits[..|st.exits|] == st.exits
                      && o.st.exits[|st.exits|..] in FailureTraces)
    decreases |args|
  {
    if |args| > 0 {
      StepRespectsContract(st, args[0], toDouble);
      match Step(st, args[0], toDouble)
      case Stop(s) =>
      case Continue(s) => RunRespects(s, args[1..], toDouble);
    }
  }

  /** <ref> is resolved from ids and names alone, which no specifier changes. */
  lemma ResolveSameShape(a: seq<Output>, b: seq<Output>, ref: string)
    requires SameShape(a, b)
    ensures Resolve(a, ref) == Resolve(b, ref)
  {
    var ka, kb := LastNamed(a, ref), LastNamed(b, ref);
    assert ka.Some? <==> kb.Some?;
    if ka.Some? {
      assert ka.value == kb.value;
    }
  }

  /**
   * A failure after a successful change stops the loop but keeps the change:
   * `output.<ref>.disable` followed by a specifier whose <ref> resolves to
   * nothing ends with exit 3, the output disabled and the flag set.
   */
  lemma ChangeSurvivesEarlyStop(st: State, ref: string, id: int32, bad: string, toDouble: string -> Option<real>)
    requires '.' !in ref && '.' !in bad
    requires Resolve(st.outs, ref) == Some(id) && HasId(st.outs, id)
    requires Resolve(st.outs, bad).None?
    ensures Run(st, [Specifier(ref, "disable", []), Specifier(bad, "enable", [])], toDouble)
      == Stop(State(Update(st.outs, id, Enable(false)), true, st.exits + [3]))
  {
    var first, second := Specifier(ref, "disable", []), Specifier(bad, "enable", []);
    var mid := State(Update(st.outs, id, Enable(false)), true, st.exits);
    StepDisable(st, ref, id, toDouble);
    ResolveSameShape(st.outs, mid.outs, bad);
    StepEnableUnresolved(mid, bad, toDouble);
    RunTwo(st, first, second, toDouble);
  }

  lemma StepDisable(st: State, ref: string, id: int32, toDouble: string -> Option<real>)
    requires '.' !in ref && Resolve(st.outs, ref) == Some(id)
    ensures Step(st, Specifier(ref, "disable", []), toDouble) == Setter(st, id, Enable(false), [8, 1])
  {
    StepPerforms(st, ref, "disable", [], id, toDouble);
    assert ["output", ref, "disable"] + [] == ["output", ref, "disable"];
  }

  lemma StepEnableUnresolved(st: State, bad: string, toDouble: string -> Option<real>)
    requires '.' !in bad && Resolve(st.outs, bad).None?
    ensures Step(st, Specifier(bad, "enable", []), toDouble) == Stop(st.(exits := st.exits + [3]))
  {
    var arg := Specifier(bad, "enable", []);
    SpecifierSegments(bad, "enable", []);
    assert Split(arg, '.') == ["output", bad, "enable"];
    assert Addressed(arg) && Split(arg, '.')[1] == bad;
    StepUnresolved(st, arg, toDouble);
  }

  lemma RunTwo(st: State, a: string, b: string, toDouble: string -> Option<real>)
    ensures Run(st, [a, b], toDouble) ==
      match Step(st, a, toDouble)
      case Stop(s) => Stop(s)
      case Continue(s) => Step(s, b, toDouble)
  {
    assert [a, b][0] == a && [a, b][1..] == [b];
    match Step(st, a, toDouble)
    case Stop(s) =>
    case Continue(s) =>
      assert [b][0] == b && [b][1..] == [];
      match Step(s, b, toDouble)
      case Stop(t) =>
      case Continue(t) => assert Run(t, [], toDouble) == Continue(t);
  }
}
