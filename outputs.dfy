/**
 * The slice of a KScreen configuration that the console edits: an ordered list
 * of outputs, each with its modes, and the effect each setter of the console
 * has on that list.
 */
module Outputs {
  import opened Wrappers
  import opened QtText

  /** KScreen::Output::Rotation (None, Left, Inverted, Right). */
  datatype Rotation = NoRotation | Left | Inverted | Right

  /** KScreen::Output::VrrPolicy. */
  datatype VrrPolicy = Never | Always | Automatic

  /** KScreen::Output::RgbRange. */
  datatype RgbRange = Automatic | Full | Limited

  /** A mode; `refreshRate` holds the refresh rate already rounded to an int (qRound). */
  datatype Mode = Mode(id: string, width: int32, height: int32, refreshRate: int32)

  datatype Point = Point(x: int32, y: int32)

  datatype Output = Output(
    id: int32,
    name: string,
    enabled: bool,
    primary: bool,
    pos: Point,
    scale: real,
    rotation: Rotation,
    overscan: uint32,
    vrrPolicy: VrrPolicy,
    rgbRange: RgbRange,
    modes: seq<Mode>,
    currentModeId: string)

  /** The label `WxH@R` under which a mode can be named on the command line. */
  function ModeLabel(m: Mode): string
  {
    IntToString(m.width) + "x" + IntToString(m.height) + "@" + IntToString(m.refreshRate)
  }

  /** A mode reference names a mode by its id or by its label. */
  predicate ModeMatches(m: Mode, ref: string)
  {
    m.id == ref || ModeLabel(m) == ref
  }

  predicate HasId(outs: seq<Output>, id: int)
  {
    exists i :: 0 <= i < |outs| && outs[i].id == id
  }

  /** KScreen keys its output list by id, so in a real configuration ids are distinct. */
  predicate UniqueIds(outs: seq<Output>)
  {
    forall i, j :: 0 <= i < j < |outs| ==> outs[i].id != outs[j].id
  }

  /** The position of the first output with the given id: the one a setter's scan stops at. */
  function FirstIndex(outs: seq<Output>, id: int): (i: nat)
    requires HasId(outs, id)
    ensures i < |outs| && outs[i].id == id
    ensures forall j :: 0 <= j < i ==> outs[j].id != id
  {
    if outs[0].id == id then 0
    else
      assert HasId(outs[1..], id) by {
        var k :| 0 <= k < |outs| && outs[k].id == id;
        assert outs[1..][k - 1].id == id;
      }
      1 + FirstIndex(outs[1..], id)
  }

  // ---------------------------------------------------------------------------
  // Single-field changes made by setEnabled, setPosition, setScale, setRotation,
  // setOverscan, setVrrPolicy and setRgbRange

  datatype Change =
    | Enable(on: bool)
    | MoveTo(point: Point)
    | ScaleTo(factor: real)
    | RotateTo(turn: Rotation)
    | OverscanTo(percent: uint32)
    | VrrTo(policy: VrrPolicy)
    | RgbTo(range: RgbRange)

  /** The field that `c` writes holds the value `c` carries. */
  predicate Carries(o: Output, c: Change)
  {
    match c
    case Enable(on) => o.enabled == on
    case MoveTo(p) => o.pos == p
    case ScaleTo(f) => o.scale == f
    case RotateTo(r) => o.rotation == r
    case OverscanTo(v) => o.overscan == v
    case VrrTo(p) => o.vrrPolicy == p
    case RgbTo(r) => o.rgbRange == r
  }

  /** `a` and `b` agree on every field except, possibly, the one that `c` writes. */
  predicate SameBut(a: Output, b: Output, c: Change)
  {
    && a.id == b.id && a.name == b.name && a.primary == b.primary
    && a.modes == b.modes && a.currentModeId == b.currentModeId
    && (c.Enable? || a.enabled == b.enabled)
    && (c.MoveTo? || a.pos == b.pos)
    && (c.ScaleTo? || a.scale == b.scale)
    && (c.RotateTo? || a.rotation == b.rotation)
    && (c.OverscanTo? || a.overscan == b.overscan)
    && (c.VrrTo? || a.vrrPolicy == b.vrrPolicy)
    && (c.RgbTo? || a.rgbRange == b.rgbRange)
  }

  function Apply(o: Output, c: Change): (r: Output)
    ensures Carries(r, c) && SameBut(o, r, c)
  {
    match c
    case Enable(on) => o.(enabled := on)
    case MoveTo(p) => o.(pos := p)
    case ScaleTo(f) => o.(scale := f)
    case RotateTo(r) => o.(rotation := r)
    case OverscanTo(v) => o.(overscan := v)
    case VrrTo(p) => o.(vrrPolicy := p)
    case RgbTo(r) => o.(rgbRange := r)
  }

  /** The list after a setter found `id`: only the first output with that id changes, and only in one field. */
  function Update(outs: seq<Output>, id: int, c: Change): (r: seq<Output>)
    requires HasId(outs, id)
    ensures |r| == |outs|
    ensures forall k :: 0 <= k < |r| && k != FirstIndex(outs, id) ==> r[k] == outs[k]
    ensures var i := FirstIndex(outs, id); Carries(r[i], c) && SameBut(outs[i], r[i], c)
  {
    var i := FirstIndex(outs, id);
    outs[i := Apply(outs[i], c)]
  }

  // ---------------------------------------------------------------------------
  // setPrimary

  /** The list after a successful setPrimary(id): exactly the outputs with that id are primary. */
  function MakePrimary(outs: seq<Output>, id: int): (r: seq<Output>)
    ensures |r| == |outs|
    ensures forall k :: 0 <= k < |r| ==> (r[k].primary <==> outs[k].id == id)
    ensures forall k :: 0 <= k < |r| ==> r[k].(primary := outs[k].primary) == outs[k]
  {
    seq(|outs|, k requires 0 <= k < |outs| => outs[k].(primary := outs[k].id == id))
  }

  /** With distinct ids, setPrimary leaves exactly one primary output, the one with that id. */
  lemma ExactlyOnePrimary(outs: seq<Output>, id: int)
    requires UniqueIds(outs) && HasId(outs, id)
    ensures var r := MakePrimary(outs, id);
      && r[FirstIndex(outs, id)].primary
      && forall k :: 0 <= k < |r| && r[k].primary ==> k == FirstIndex(outs, id)
  {
  }

  /** A later setPrimary overrides an earlier one completely. */
  lemma LastPrimaryWins(outs: seq<Output>, a: int, b: int)
    ensures MakePrimary(MakePrimary(outs, a), b) == MakePrimary(outs, b)
  {
    var r1 := MakePrimary(MakePrimary(outs, a), b);
    var r2 := MakePrimary(outs, b);
    assert forall k :: 0 <= k < |r1| ==> r1[k] == r2[k];
  }

  // ---------------------------------------------------------------------------
  // setMode

  /** Where the first mode that `ref` names sits in `modes`, if any. */
  function FirstMode(modes: seq<Mode>, ref: string): (r: Option<nat>)
    ensures r.None? <==> forall j :: 0 <= j < |modes| ==> !ModeMatches(modes[j], ref)
    ensures r.Some? ==> r.value < |modes| && ModeMatches(modes[r.value], ref)
    ensures r.Some? ==> forall j :: 0 <= j < r.value ==> !ModeMatches(modes[j], ref)
  {
    if |modes| == 0 then None
    else if ModeMatches(modes[0], ref) then Some(0)
    else
      match FirstMode(modes[1..], ref)
      case None =>
        assert forall j :: 1 <= j < |modes| ==> modes[j] == modes[1..][j - 1];
        None
      case Some(j) =>
        assert forall b :: 1 <= b <= j ==> modes[b] == modes[1..][b - 1];
        Some(j + 1)
  }

  /** Output `o` has the id and offers a mode that `ref` names. */
  predicate Offers(o: Output, id: int, ref: string)
  {
    o.id == id && exists j :: 0 <= j < |o.modes| && ModeMatches(o.modes[j], ref)
  }

  /** The first output that has the id and a mode named by `ref`, if any. */
  function ModeTarget(outs: seq<Output>, id: int, ref: string): (r: Option<nat>)
    ensures r.None? <==> forall i :: 0 <= i < |outs| ==> !Offers(outs[i], id, ref)
    ensures r.Some? ==> r.value < |outs| && Offers(outs[r.value], id, ref)
    ensures r.Some? ==> forall i :: 0 <= i < r.value ==> !Offers(outs[i], id, ref)
  {
    if |outs| == 0 then None
    else if Offers(outs[0], id, ref) then Some(0)
    else
      match ModeTarget(outs[1..], id, ref)
      case None =>
        assert forall i :: 1 <= i < |outs| ==> outs[i] == outs[1..][i - 1];
        None
      case Some(i) => Some(i + 1)
  }

  /** The list after a successful setMode: the target output's current mode is the first mode `ref` names. */
  function SelectMode(outs: seq<Output>, id: int, ref: string): (r: seq<Output>)
    requires ModeTarget(outs, id, ref).Some?
    ensures |r| == |outs|
    ensures var i := ModeTarget(outs, id, ref).value;
      && (forall k :: 0 <= k < |r| && k != i ==> r[k] == outs[k])
      && r[i].(currentModeId := outs[i].currentModeId) == outs[i]
      && exists j :: 0 <= j < |outs[i].modes| && ModeMatches(outs[i].modes[j], ref)
                     && (forall b :: 0 <= b < j ==> !ModeMatches(outs[i].modes[b], ref))
                     && r[i].currentModeId == outs[i].modes[j].id
  {
    var i := ModeTarget(outs, id, ref).value;
    var j := FirstMode(outs[i].modes, ref).value;
    outs[i := outs[i].(currentModeId := outs[i].modes[j].id)]
  }

  /** setMode succeeds with the `WxH@R` label of any mode of an output with that id. */
  lemma LabelSelectsMode(outs: seq<Output>, i: nat, j: nat)
    requires i < |outs| && j < |outs[i].modes|
    ensures ModeTarget(outs, outs[i].id, ModeLabel(outs[i].modes[j])).Some?
  {
    assert Offers(outs[i], outs[i].id, ModeLabel(outs[i].modes[j]));
  }

  /**
   * The label of mode j selects mode j itself exactly when no earlier mode of
   * the output matches that label (by id or by label): the scan keeps the first.
   */
  lemma LabelSelectsFirstMatch(modes: seq<Mode>, j: nat)
    requires j < |modes|
    ensures FirstMode(modes, ModeLabel(modes[j])) == Some(j) <==>
      forall b :: 0 <= b < j ==> !ModeMatches(modes[b], ModeLabel(modes[j]))
  {
    var r := FirstMode(modes, ModeLabel(modes[j]));
    assert ModeMatches(modes[j], ModeLabel(modes[j]));
    if forall b :: 0 <= b < j ==> !ModeMatches(modes[b], ModeLabel(modes[j])) {
      assert r.Some?;
      assert r.value == j;
    }
  }

  // ---------------------------------------------------------------------------
  // What no setter touches

  /** Same outputs in the same order with the same identity and modes. */
  predicate SameShape(a: seq<Output>, b: seq<Output>)
  {
    && |a| == |b|
    && forall k :: 0 <= k < |a| ==> a[k].id == b[k].id && a[k].name == b[k].name && a[k].modes == b[k].modes
  }
}
