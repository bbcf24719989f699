/**
 * KScreen::Console, the object behind the console tool: it holds the fetched
 * configuration (m_config), the output specifiers from the command line
 * (m_outputArgs) and the changed flag (m_changed), edits the configuration in
 * place one specifier at a time, and commits it once at the end. Calls to
 * qApp->exit are recorded in `exits` and issued SetConfigOperations in
 * `commits`; the methods are proved to follow the functions of Specifiers.
 */
module KScreenConsole {
  import opened Wrappers
  import opened QtText
  import opened Outputs
  import opened Specifiers

  /** The scan each setter makes over the outputs: the first position holding the id, or -1. */
  method FindOutput(outs: seq<Output>, id: int) returns (i: int)
    ensures -1 <= i < |outs|
    ensures i == -1 <==> !HasId(outs, id)
    ensures i != -1 ==> i == FirstIndex(outs, id)
  {
    i := 0;
    while i < |outs|
      invariant 0 <= i <= |outs|
      invariant forall j :: 0 <= j < i ==> outs[j].id != id
    {
      if outs[i].id == id {
        return;
      }
      i := i + 1;
    }
    return -1;
  }

  /** The name scan at the start of each specifier: the id of the last output with that name, or -1. */
  method NamedOutputId(outs: seq<Output>, name: string) returns (outputId: int32)
    ensures outputId == NamedId(outs, name)
  {
    outputId := -1;
    var k := 0;
    while k < |outs|
      invariant 0 <= k <= |outs|
      invariant outputId == NamedId(outs[..k], name)
    {
      if outs[k].name == name {
        outputId := outs[k].id;
      }
      assert outs[..k + 1][..k] == outs[..k];
      k := k + 1;
    }
    assert outs[..|outs|] == outs;
  }

  /** The scan over one output's modes: the first mode whose id or `WxH@R` label is `modeRef`, or -1. */
  method FindMode(modes: seq<Mode>, modeRef: string) returns (j: int)
    ensures -1 <= j < |modes|
    ensures j == -1 <==> FirstMode(modes, modeRef).None?
    ensures j != -1 ==> FirstMode(modes, modeRef) == Some(j)
  {
    j := 0;
    while j < |modes|
      invariant 0 <= j <= |modes|
      invariant forall b :: 0 <= b < j ==> !ModeMatches(modes[b], modeRef)
    {
      if ModeMatches(modes[j], modeRef) {
        return;
      }
      j := j + 1;
    }
    return -1;
  }

  /** The nested scan of setMode: the first output with the id offering the mode, and that mode's position. */
  method LocateMode(outs: seq<Output>, id: int, modeRef: string) returns (i: int, j: int)
    ensures i == -1 <==> ModeTarget(outs, id, modeRef).None?
    ensures i != -1 ==> ModeTarget(outs, id, modeRef) == Some(i)
    ensures i != -1 ==> 0 <= i < |outs| && FirstMode(outs[i].modes, modeRef) == Some(j)
  {
    i := 0;
    while i < |outs|
      invariant 0 <= i <= |outs|
      invariant forall a :: 0 <= a < i ==> !Offers(outs[a], id, modeRef)
    {
      if outs[i].id == id {
        j := FindMode(outs[i].modes, modeRef);
        if j != -1 {
          assert Offers(outs[i], id, modeRef);
          return;
        }
      }
      i := i + 1;
    }
    return -1, -1;
  }

  class Console {
    /** m_config; None is a null configuration. */
    var config: Option<seq<Output>>
    /** m_changed */
    var changed: bool
    /** m_outputArgs */
    var outputArgs: seq<string>
    /** The codes passed to qApp->exit, in call order. */
    var exits: seq<int>
    /** The configurations handed to a SetConfigOperation, in order. */
    var commits: seq<Option<seq<Output>>>

    constructor ()
      ensures config == None && !changed && outputArgs == [] && exits == [] && commits == []
    {
      config := None;
      changed := false;
      outputArgs := [];
      exits := [];
      commits := [];
    }

    /** The configuration, the flag and the exit trace as one value. */
    ghost function Current(): State
      reads this
      requires config.Some?
    {
      State(config.value, changed, exits)
    }

    method SetOptionList(args: seq<string>)
      modifies this
      ensures outputArgs == args
      ensures config == old(config) && changed == old(changed) && exits == old(exits) && commits == old(commits)
    {
      outputArgs := args;
    }

    /** What a one-field setter did: with a configuration holding the id, the first such output got `c` and the flag was set; otherwise nothing changed. */
    twostate predicate SetterDone(id: int, c: Change, ok: bool)
      reads this
    {
      && (ok <==> old(config).Some? && HasId(old(config).value, id))
      && (ok ==> config == Some(Update(old(config).value, id, c)) && changed)
      && (!ok ==> config == old(config) && changed == old(changed))
      && outputArgs == old(outputArgs) && commits == old(commits)
    }

    /** The scan, update and flag shared by the one-field setters. */
    method UpdateOutput(id: int, c: Change) returns (ok: bool)
      modifies this
      ensures SetterDone(id, c, ok) && exits == old(exits)
    {
      if config.None? {
        return false;
      }
      var outs := config.value;
      var i := FindOutput(outs, id);
      if i == -1 {
        return false;
      }
      config := Some(outs[i := Apply(outs[i], c)]);
      changed := true;
      return true;
    }

    /** setEnabled: also exits with 8 itself when the configuration has no such output. */
    method SetEnabled(id: int, enabled: bool) returns (ok: bool)
      modifies this
      ensures SetterDone(id, Enable(enabled), ok)
      ensures exits == if old(config).Some? && !ok then old(exits) + [8] else old(exits)
    {
      if config.None? {
        return false;
      }
      ok := UpdateOutput(id, Enable(enabled));
      if !ok {
        exits := exits + [8];
      }
    }

    method SetPosition(id: int, pos: Point) returns (ok: bool)
      modifies this
      ensures SetterDone(id, MoveTo(pos), ok) && exits == old(exits)
    {
      ok := UpdateOutput(id, MoveTo(pos));
    }

    method SetScale(id: int, scale: real) returns (ok: bool)
      modifies this
      ensures SetterDone(id, ScaleTo(scale), ok) && exits == old(exits)
    {
      ok := UpdateOutput(id, ScaleTo(scale));
    }

    method SetRotation(id: int, rot: Rotation) returns (ok: bool)
      modifies this
      ensures SetterDone(id, RotateTo(rot), ok) && exits == old(exits)
    {
      ok := UpdateOutput(id, RotateTo(rot));
    }

    method SetOverscan(id: int, overscan: uint32) returns (ok: bool)
      modifies this
      ensures SetterDone(id, OverscanTo(overscan), ok) && exits == old(exits)
    {
      ok := UpdateOutput(id, OverscanTo(overscan));
    }

    method SetVrrPolicy(id: int, policy: VrrPolicy) returns (ok: bool)
      modifies this
      ensures SetterDone(id, VrrTo(policy), ok) && exits == old(exits)
    {
      ok := UpdateOutput(id, VrrTo(policy));
    }

    method SetRgbRange(id: int, range: RgbRange) returns (ok: bool)
      modifies this
      ensures SetterDone(id, RgbTo(range), ok) && exits == old(exits)
    {
      ok := UpdateOutput(id, RgbTo(range));
    }

    /** setMode: the first output with the id that offers a mode named by `modeRef` gets that mode as current mode. */
    method SetMode(id: int, modeRef: string) returns (ok: bool)
      modifies this
      ensures ok <==> old(config).Some? && ModeTarget(old(config).value, id, modeRef).Some?
      ensures ok ==> config == Some(SelectMode(old(config).value, id, modeRef)) && changed
      ensures !ok ==> config == old(config) && changed == old(changed)
      ensures exits == old(exits) && outputArgs == old(outputArgs) && commits == old(commits)
    {
      if config.None? {
        return false;
      }
      var outs := config.value;
      var i, j := LocateMode(outs, id, modeRef);
      if i == -1 {
        return false;
      }
      config := Some(outs[i := outs[i].(currentModeId := outs[i].modes[j].id)]);
      changed := true;
      return true;
    }

    /** setPrimary: one pass marks every output with the id primary, a second clears all others. */
    method SetPrimary(id: int) returns (found: bool)
      modifies this
      ensures found <==> old(config).Some? && HasId(old(config).value, id)
      ensures found ==> config == Some(MakePrimary(old(config).value, id)) && changed
      ensures !found ==> config == old(config) && changed == old(changed)
      ensures exits == old(exits) && outputArgs == old(outputArgs) && commits == old(commits)
    {
      if config.None? {
        return false;
      }
      var outs := config.value;
      ghost var before := outs;
      found := false;
      var k := 0;
      while k < |outs|
        invariant 0 <= k <= |outs| == |before|
        invariant found <==> exists j :: 0 <= j < k && before[j].id == id
        invariant found ==> changed
        invariant !found ==> changed == old(changed)
        invariant forall j :: 0 <= j < |outs| ==>
          outs[j] == if j < k && before[j].id == id then before[j].(primary := true) else before[j]
        invariant config == old(config) && exits == old(exits)
        invariant outputArgs == old(outputArgs) && commits == old(commits)
      {
        if outs[k].id == id {
          outs := outs[k := outs[k].(primary := true)];
          changed := true;
          found := true;
        }
        k := k + 1;
      }
      if found {
        k := 0;
        while k < |outs|
          invariant 0 <= k <= |outs| == |before|
          invariant changed
          invariant forall j :: 0 <= j < |outs| ==>
            outs[j] == if before[j].id == id then before[j].(primary := true)
                       else if j < k then before[j].(primary := false) else before[j]
          invariant config == old(config) && exits == old(exits)
          invariant outputArgs == old(outputArgs) && commits == old(commits)
        {
          if outs[k].id != id {
            outs := outs[k := outs[k].(primary := false)];
            changed := true;
          }
          k := k + 1;
        }
        assert outs == MakePrimary(before, id);
        config := Some(outs);
      }
    }

    /** The dispatch on the action and segment count, with the argument checks and the exit codes of each branch. */
    method PerformAction(ops: seq<string>, id: int32, toDouble: string -> Option<real>) returns (stop: bool)
      requires |ops| >= 3 && config.Some?
      modifies this
      ensures outputArgs == old(outputArgs) && commits == old(commits)
      ensures config.Some?
      ensures var o := Perform(old(Current()), ops, id, toDouble); stop == o.Stop? && Current() == o.st
    {
      var action := ops[2];
      if |ops| == 3 && action == "primary" {
        var ok := SetPrimary(id);
        if !ok {
          exits := exits + [1];
          return true;
        }
      } else if |ops| == 3 && action == "enable" {
        var ok := SetEnabled(id, true);
        if !ok {
          exits := exits + [1];
          return true;
        }
      } else if |ops| == 3 && action == "disable" {
        var ok := SetEnabled(id, false);
        if !ok {
          exits := exits + [1];
          return true;
        }
      } else if |ops| == 4 && action == "mode" {
        var ok := SetMode(id, ops[3]);
        if !ok {
          exits := exits + [9];
          return true;
        }
      } else if |ops| == 4 && action == "position" {
        var pos := Split(ops[3], ',');
        if |pos| != 2 {
          exits := exits + [5];
          return true;
        }
        var x := ToIntOrZero(pos[0]);
        var y := ParseInt(pos[1]);
        if y.None? {
          exits := exits + [5];
          return true;
        }
        var ok := SetPosition(id, Point(x, y.value));
        if !ok {
          exits := exits + [1];
          return true;
        }
      } else if (|ops| == 4 || |ops| == 5) && action == "scale" {
        var text := Replace(ops[3], ',', '.');
        if |ops| == 5 {
          text := text + "." + ops[4];
        }
        var scale := toDouble(text);
        if scale.None? || scale.value == 0.0 {
          exits := exits + [9];
          return true;
        }
        var ok := SetScale(id, scale.value);
        if !ok {
          exits := exits + [9];
          return true;
        }
      } else if |ops| == 4 && action in {"orientation", "rotation", "overscan", "vrrpolicy", "rgbrange"} {
        stop := PerformSetting(ops, id);
        return;
      } else {
        exits := exits + [2];
        return true;
      }
      return false;
    }

    /** The branches of the dispatch whose argument is one word or number checked against a closed range. */
    method PerformSetting(ops: seq<string>, id: int32) returns (stop: bool)
      requires |ops| == 4 && ops[2] in {"orientation", "rotation", "overscan", "vrrpolicy", "rgbrange"}
      requires config.Some?
      modifies this
      ensures outputArgs == old(outputArgs) && commits == old(commits)
      ensures config.Some?
      ensures forall toDouble: string -> Option<real> ::
        var o := Perform(old(Current()), ops, id, toDouble); stop == o.Stop? && Current() == o.st
    {
      var action := ops[2];
      if action == "orientation" || action == "rotation" {
        var rot := RotationArg(ops[3]);
        if rot.None? {
          exits := exits + [9];
          return true;
        }
        var ok := SetRotation(id, rot.value);
        if !ok {
          exits := exits + [9];
          return true;
        }
      } else if action == "overscan" {
        var overscan := ToUint32(ToIntOrZero(ops[3]));
        if overscan > 100 {
          exits := exits + [9];
          return true;
        }
        var ok := SetOverscan(id, overscan);
        if !ok {
          exits := exits + [9];
          return true;
        }
      } else if action == "vrrpolicy" {
        var policy := VrrPolicyArg(ops[3]);
        if policy.None? {
          exits := exits + [9];
          return true;
        }
        var ok := SetVrrPolicy(id, policy.value);
        if !ok {
          exits := exits + [9];
          return true;
        }
      } else {
        var range := RgbRangeArg(ops[3]);
        if range.None? {
          exits := exits + [9];
          return true;
        }
        var ok := SetRgbRange(id, range.value);
        if !ok {
          exits := exits + [9];
          return true;
        }
      }
      return false;
    }

    /** One pass of the parse loop: skip, resolve <ref> (exit 3 when that fails), then dispatch. */
    method ProcessSpecifier(arg: string, toDouble: string -> Option<real>) returns (stop: bool)
      requires config.Some? || !Addressed(arg)
      modifies this
      ensures outputArgs == old(outputArgs) && commits == old(commits)
      ensures old(config).None? ==>
        config == old(config) && changed == old(changed) && exits == old(exits) && !stop
      ensures old(config).Some? ==> (config.Some? &&
        var o := Step(old(Current()), arg, toDouble); stop == o.Stop? && Current() == o.st)
    {
      var ops := Split(arg, '.');
      if |ops| <= 2 || ops[0] != "output" {
        return false;
      }
      var outputId := NamedOutputId(config.value, ops[1]);
      if outputId == -1 {
        var parsed := ParseInt(ops[1]);
        if parsed.None? {
          exits := exits + [3];
          return true;
        }
        outputId := parsed.value;
      }
      stop := PerformAction(ops, outputId, toDouble);
    }

    /** parseOutputArgs: the specifiers in order, returning at the first failure. */
    method ParseOutputArgs(toDouble: string -> Option<real>)
      requires config.Some? || forall i :: 0 <= i < |outputArgs| ==> !Addressed(outputArgs[i])
      modifies this
      ensures outputArgs == old(outputArgs) && commits == old(commits)
      ensures old(config).None? ==> config == old(config) && changed == old(changed) && exits == old(exits)
      ensures old(config).Some? ==> config.Some? && Current() == Run(old(Current()), outputArgs, toDouble).st
    {
      var i := 0;
      while i < |outputArgs|
        invariant 0 <= i <= |outputArgs|
        invariant outputArgs == old(outputArgs) && commits == old(commits)
        invariant old(config).None? ==> config == old(config) && changed == old(changed) && exits == old(exits)
        invariant old(config).Some? ==> (config.Some? &&
          Run(old(Current()), outputArgs[..i], toDouble) == Continue(Current()))
      {
        ghost var before := if config.Some? then Current() else State([], false, []);
        var stop := ProcessSpecifier(outputArgs[i], toDouble);
        if old(config).Some? {
          RunNext(old(Current()), outputArgs, i, before, toDouble);
        }
        if stop {
          if old(config).Some? {
            RunStopped(old(Current()), outputArgs, i + 1, toDouble);
          }
          return;
        }
        i := i + 1;
      }
      assert outputArgs[..i] == outputArgs;
    }

    /** applyConfig: a no-op unless the flag is set; otherwise one commit and exit(0). */
    method ApplyConfig()
      modifies this
      ensures old(changed) ==> commits == old(commits) + [config] && exits == old(exits) + [0]
      ensures !old(changed) ==> commits == old(commits) && exits == old(exits)
      ensures config == old(config) && changed == old(changed) && outputArgs == old(outputArgs)
    {
      if !changed {
        return;
      }
      commits := commits + [config];
      exits := exits + [0];
    }

    /**
     * configReceived from the point the snapshot is stored: parse, then commit
     * exactly when the flag is set (even after the loop stopped early), then
     * clear the flag.
     */
    method ConfigReceived(snapshot: Option<seq<Output>>, toDouble: string -> Option<real>)
      requires snapshot.Some? || forall i :: 0 <= i < |outputArgs| ==> !Addressed(outputArgs[i])
      modifies this
      ensures outputArgs == old(outputArgs) && !changed
      ensures snapshot.None? ==>
        && config == None
        && exits == old(exits) + (if old(changed) then [0] else [])
        && commits == old(commits) + (if old(changed) then [None] else [])
      ensures snapshot.Some? ==>
        var o := Run(State(snapshot.value, old(changed), old(exits)), outputArgs, toDouble);
        && config == Some(o.st.outs)
        && exits == o.st.exits + (if o.st.changed then [0] else [])
        && commits == old(commits) + (if o.st.changed then [config] else [])
    {
      config := snapshot;
      ParseOutputArgs(toDouble);
      if changed {
        ApplyConfig();
        changed := false;
      }
    }
  }
}
