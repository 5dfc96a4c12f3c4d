/** Whole runs of commands, and the way from a command's text to its effect. */
module CommandRuns {
  import opened Text
  import opened Protocol
  import opened RoundTrips
  import opened Devices
  import opened Commands

  /** The devices after a run of commands. */
  function Run(h: House, cmds: seq<Command>): House {
    if cmds == [] then h else Apply(Run(h, cmds[..|cmds| - 1]), cmds[|cmds| - 1])
  }

  function DecodeAll(raws: seq<string>, lib: Library): (cmds: seq<Command>)
    ensures |cmds| == |raws|
    ensures forall i :: 0 <= i < |raws| ==> cmds[i] == Decode(raws[i], lib)
  {
    seq(|raws|, i requires 0 <= i < |raws| => Decode(raws[i], lib))
  }

  // ---------- the last command of a kind decides ----------

  predicate IsSwitch(c: Command) {
    c == ToLight(LightOn) || c == ToLight(LightOff)
  }

  predicate IsDim(c: Command) {
    c.ToLight? && c.light.SetBrightness?
  }

  predicate IsArming(c: Command) {
    c == ToCamera(Arm) || c == ToCamera(Disarm)
  }

  /** Position `t` holds the last command of its kind in the run. */
  ghost predicate LastOf(cmds: seq<Command>, t: int, kind: Command -> bool) {
    0 <= t < |cmds| && kind(cmds[t]) && forall u :: t < u < |cmds| ==> !kind(cmds[u])
  }

  lemma LastOfFront(cmds: seq<Command>, t: int, kind: Command -> bool)
    requires cmds != [] && LastOf(cmds, t, kind)
    ensures t == |cmds| - 1 || (LastOf(cmds[..|cmds| - 1], t, kind) && !kind(cmds[|cmds| - 1]))
    ensures t < |cmds| - 1 ==> cmds[..|cmds| - 1][t] == cmds[t]
  {
  }

  /** The light is on exactly if the last on/off command says so; without one it is as at the start. */
  lemma {:induction false} PowerFollowsLastSwitch(h: House, cmds: seq<Command>)
    requires h.light.Some?
    ensures Run(h, cmds).light.Some?
    ensures forall t :: LastOf(cmds, t, IsSwitch) ==>
              0 <= t < |cmds| && Run(h, cmds).light.value.on == (cmds[t] == ToLight(LightOn))
    ensures (forall t :: 0 <= t < |cmds| ==> !IsSwitch(cmds[t])) ==> Run(h, cmds).light.value.on == h.light.value.on
  {
    hide LastOf, ApplyThermostat, ApplyCamera, Clamp;
    if cmds == [] {
      NothingLast(IsSwitch);
    } else {
      PowerFollowsLastSwitch(h, cmds[..|cmds| - 1]);
      forall t | LastOf(cmds, t, IsSwitch)
        ensures 0 <= t < |cmds| && Run(h, cmds).light.value.on == (cmds[t] == ToLight(LightOn))
      {
        LastInRange(cmds, t, IsSwitch);
        LastOfFront(cmds, t, IsSwitch);
      }
    }
  }

  lemma NothingLast(kind: Command -> bool)
    ensures forall t :: !LastOf([], t, kind)
  {
  }

  /** The brightness is the last valid setting, clamped to 0..100. */
  lemma {:induction false} BrightnessFollowsLastSetting(h: House, cmds: seq<Command>)
    requires h.light.Some?
    ensures Run(h, cmds).light.Some?
    ensures forall t :: LastOf(cmds, t, IsDim) ==>
              && 0 <= t < |cmds| && IsDim(cmds[t])
              && var n := cmds[t].light.level;
                 Run(h, cmds).light.value.brightness == if n < 0 then 0 else if n > 100 then 100 else n
    ensures (forall t :: 0 <= t < |cmds| ==> !IsDim(cmds[t]))
            ==> Run(h, cmds).light.value.brightness == h.light.value.brightness
  {
    hide LastOf, ApplyThermostat, ApplyCamera, Clamp;
    if cmds == [] {
      NothingLast(IsDim);
    } else {
      BrightnessFollowsLastSetting(h, cmds[..|cmds| - 1]);
      forall t | LastOf(cmds, t, IsDim)
        ensures 0 <= t < |cmds| && IsDim(cmds[t])
        ensures var n := cmds[t].light.level;
                Run(h, cmds).light.value.brightness == if n < 0 then 0 else if n > 100 then 100 else n
      {
        LastInRange(cmds, t, IsDim);
        LastOfFront(cmds, t, IsDim);
      }
    }
  }

  lemma LastInRange(cmds: seq<Command>, t: int, kind: Command -> bool)
    requires LastOf(cmds, t, kind)
    ensures 0 <= t < |cmds| && kind(cmds[t])
  {
  }

  /** The camera is armed exactly if the last arm/disarm command says so. */
  lemma {:induction false} ArmedFollowsLastArming(h: House, cmds: seq<Command>)
    requires h.camera.Some?
    ensures Run(h, cmds).camera.Some?
    ensures forall t :: LastOf(cmds, t, IsArming) ==>
              0 <= t < |cmds| && Run(h, cmds).camera.value.armed == (cmds[t] == ToCamera(Arm))
    ensures (forall t :: 0 <= t < |cmds| ==> !IsArming(cmds[t]))
            ==> Run(h, cmds).camera.value.armed == h.camera.value.armed
  {
    hide LastOf, ApplyThermostat, ApplyLight;
    if cmds == [] {
      NothingLast(IsArming);
    } else {
      ArmedFollowsLastArming(h, cmds[..|cmds| - 1]);
      forall t | LastOf(cmds, t, IsArming)
        ensures 0 <= t < |cmds| && Run(h, cmds).camera.value.armed == (cmds[t] == ToCamera(Arm))
      {
        LastInRange(cmds, t, IsArming);
        LastOfFront(cmds, t, IsArming);
      }
    }
  }

  predicate IsSetting(c: Command) {
    c.ToThermostat? && c.thermostat.SetTemperature?
  }

  /** The target temperature is the last valid setting, clamped. */
  lemma {:induction false} TargetFollowsLastSetting(h: House, cmds: seq<Command>)
    requires h.thermostat.Some?
    ensures Run(h, cmds).thermostat.Some?
    ensures forall t :: LastOf(cmds, t, IsSetting) ==>
              0 <= t < |cmds| && IsSetting(cmds[t])
              && Run(h, cmds).thermostat.value.target == ClampTemperature(cmds[t].thermostat.temp)
    ensures (forall t :: 0 <= t < |cmds| ==> !IsSetting(cmds[t]))
            ==> Run(h, cmds).thermostat.value.target == h.thermostat.value.target
  {
    hide LastOf, ApplyLight, ApplyCamera, ClampTemperature;
    if cmds == [] {
      NothingLast(IsSetting);
    } else {
      TargetFollowsLastSetting(h, cmds[..|cmds| - 1]);
      forall t | LastOf(cmds, t, IsSetting)
        ensures 0 <= t < |cmds| && IsSetting(cmds[t])
        ensures Run(h, cmds).thermostat.value.target == ClampTemperature(cmds[t].thermostat.temp)
      {
        LastInRange(cmds, t, IsSetting);
        LastOfFront(cmds, t, IsSetting);
      }
    }
  }

  /** A run has a last command of a kind, or none of that kind. */
  lemma {:induction false} LastExists(cmds: seq<Command>, kind: Command -> bool)
    ensures (exists t :: LastOf(cmds, t, kind)) || forall t :: 0 <= t < |cmds| ==> !kind(cmds[t])
  {
    if cmds != [] {
      var n := |cmds| - 1;
      if kind(cmds[n]) {
        assert LastOf(cmds, n, kind);
      } else {
        LastExists(cmds[..n], kind);
        if t :| LastOf(cmds[..n], t, kind) {
          assert LastOf(cmds, t, kind);
        }
      }
    }
  }

  /** Whether the last valid setting of the run, if there is one, is NaN. */
  ghost predicate LastSettingIsNaN(cmds: seq<Command>) {
    exists t :: LastOf(cmds, t, IsSetting) && 0 <= t < |cmds| && IsSetting(cmds[t]) && cmds[t].thermostat.temp == NaN
  }

  /** A target temperature in 10..35 stays there exactly as long as the last valid setting is not
      NaN, which no comparison stops. */
  lemma TargetInRangeUnlessNaN(h: House, cmds: seq<Command>)
    requires h.thermostat.Some? && InRange(h.thermostat.value.target)
    ensures Run(h, cmds).thermostat.Some?
    ensures InRange(Run(h, cmds).thermostat.value.target) <==> !LastSettingIsNaN(cmds)
  {
    hide LastOf, Run;
    TargetFollowsLastSetting(h, cmds);
    LastExists(cmds, IsSetting);
  }

  /** What holds in every state of every run: an armed camera is powered on, and reports no motion that
      no command could have caused; the light's brightness stays in 0..100. */
  ghost predicate Sane(h: House) {
    && (h.camera.Some? ==> (h.camera.value.armed ==> h.camera.value.on) && !h.camera.value.motion)
    && (h.light.Some? ==> 0 <= h.light.value.brightness <= 100)
  }

  /** Every run that starts with four new devices keeps that; it never touches the second light, and
      the camera is on exactly if it was armed at some time. */
  lemma {:induction false} RunsStaySane(places: seq<Place>, cmds: seq<Command>)
    requires |places| == 4
    ensures Sane(Run(Installed(NO_DEVICES, places), cmds))
    ensures Run(Installed(NO_DEVICES, places), cmds).light2 == Some(NewLight(places[1]))
    ensures Run(Installed(NO_DEVICES, places), cmds).camera.Some?
    ensures (exists t :: 0 <= t < |cmds| && cmds[t] == ToCamera(Arm))
            <==> Run(Installed(NO_DEVICES, places), cmds).camera.value.on
  {
    hide ApplyThermostat, ApplyLight, Clamp, ClampTemperature;
    if cmds != [] {
      var n := |cmds| - 1;
      RunsStaySane(places, cmds[..n]);
      assert forall t :: 0 <= t < n ==> cmds[..n][t] == cmds[t];
      SaneStep(Run(Installed(NO_DEVICES, places), cmds[..n]), cmds[n]);
    }
  }

  lemma SaneStep(h: House, c: Command)
    requires Sane(h)
    ensures Sane(Apply(h, c)) && Apply(h, c).light2 == h.light2
  {
  }

  /** The places the devices of a house are at. */
  function Places(h: House): (Option<Place>, Option<Place>, Option<Place>, Option<Place>) {
    (if h.light.Some? then Some(h.light.value.place) else None,
     if h.light2.Some? then Some(h.light2.value.place) else None,
     if h.thermostat.Some? then Some(h.thermostat.value.place) else None,
     if h.camera.Some? then Some(h.camera.value.place) else None)
  }

  /** No run of commands adds, removes or moves a device. */
  lemma {:induction false} DevicesStayPut(h: House, cmds: seq<Command>)
    ensures Places(Run(h, cmds)) == Places(h)
  {
    hide Clamp, ClampTemperature;
    if cmds != [] {
      DevicesStayPut(h, cmds[..|cmds| - 1]);
    }
  }

  /** The commands that can change a device. */
  predicate Effective(c: Command) {
    IsSwitch(c) || IsDim(c) || IsArming(c) || IsSetting(c)
  }

  /** A command leaves every device of every house alone exactly when it is not one of the setting
      commands: status, list, usage, unknown, ping and ARP requests change nothing. */
  lemma OnlyEffectiveCommandsChange(c: Command)
    ensures !Effective(c) <==> forall h: House :: Apply(h, c) == h
  {
    if Effective(c) {
      var p := Place("", "");
      var off := House(Some(LightState(p, false, 0)), None, Some(ThermostatState(p, Finite(0.0))),
                       Some(CameraState(p, false, false, false)));
      var on := House(Some(LightState(p, true, 101)), None, Some(ThermostatState(p, Finite(20.0))),
                      Some(CameraState(p, true, true, true)));
      assert Apply(off, c) != off || Apply(on, c) != on;
    }
  }

  // ---------- from a client's call to the command ----------

  /** A request whose text does not start like a PING or ARP command, built for a list of segments,
      reaches the handlers as exactly that list; any other is taken for a PING or ARP command. */
  lemma BuiltRequestIsDispatched(verb: string, ps: seq<string>, body: string, lib: Library)
    requires verb != "" && SpaceFree(verb) && IsSegmentList(ps) && forall p :: p in ps ==> SpaceFree(p)
    ensures var raw := RequestText(verb, "/" + Join(ps, '/'), body);
            Decode(raw, lib) == DecodeSegments(ps, lib) <==> !IsPing(raw) && !IsArp(raw)
  {
    hide Join, Segments, Parse, RequestText, DecodeLight, DecodeThermostat, DecodeCamera, Target, IsPing, IsArp;
    SegmentsDelivered(verb, ps, body);
  }

  lemma GetIsNoPing(rest: string)
    ensures !IsPing("GET" + rest) && !IsArp("GET" + rest)
  {
    var raw := "GET" + rest;
    assert raw[0] == 'G';
    assert "PING"[0] != 'G' && "ping"[0] != 'G' && "ARP"[0] != 'G' && "arp"[0] != 'G';
  }

  lemma BuiltGet(path: string, body: string) returns (rest: string)
    ensures RequestText("GET", path, body) == "GET" + rest
  {
    var tail := HeaderLine("Host", "SmartHome") + (LengthLine(body) + (CRLF + body));
    rest := " " + path + " SHCP/1.0" + CRLF + tail;
  }

  /** Whatever command a client types, the request it sends is never taken for PING or ARP, although
      its help text offers both: the text is wrapped in a GET request. */
  lemma ClientNeverPings(command: string, lib: Library)
    ensures var c := Decode(RequestText("GET", command, ""), lib);
            !c.Ping? && !c.PingUsage? && !c.ArpQuery? && !c.ArpUsage?
  {
    hide RequestText, Parse, Segments, DecodeLight, DecodeThermostat, DecodeCamera, Target, IsPing, IsArp;
    var rest := BuiltGet(command, "");
    GetIsNoPing(rest);
  }

  /** A client that asks for `/light/brightness/<n>` sets the brightness to n, for every `int`. */
  lemma BrightnessRequestArrives(n: int, lib: Library)
    requires INT_MIN <= n <= INT_MAX
    ensures Decode(RequestText("GET", "/" + Join(["light", "brightness", IntText(n)], '/'), ""), lib)
            == ToLight(SetBrightness(n))
  {
    hide Join, Segments, Parse, RequestText, Target, IsPing, IsArp, IntText, Stoi, Decode;
    var ps := ["light", "brightness", IntText(n)];
    PlainSegment(n);
    StoiOfIntText(n);
    var rest := BuiltGet("/" + Join(ps, '/'), "");
    GetIsNoPing(rest);
    BuiltRequestIsDispatched("GET", ps, "", lib);
  }

  /** One request is enough to store NaN: `std::stod` accepts the text "nan". */
  lemma NaNRequestIsStored(h: House, lib: Library)
    requires h.thermostat.Some? && lib.stod("nan") == Some(NaN)
    ensures var c := Decode(RequestText("GET", "/" + Join(["thermostat", "set", "nan"], '/'), ""), lib);
            && c == ToThermostat(SetTemperature(NaN, "nan"))
            && Run(h, [c]).thermostat == Some(h.thermostat.value.(target := NaN))
  {
    hide Join, Segments, Parse, RequestText, Target, IsPing, IsArp, Decode;
    var ps := ["thermostat", "set", "nan"];
    NaNSegments();
    var rest := BuiltGet("/" + Join(ps, '/'), "");
    GetIsNoPing(rest);
    BuiltRequestIsDispatched("GET", ps, "", lib);
    var c := ToThermostat(SetTemperature(NaN, "nan"));
    assert [c][..0] == [] && Run(h, []) == h;
  }

  lemma NaNSegments()
    ensures SlashFree("thermostat") && SpaceFree("thermostat") && SlashFree("set") && SpaceFree("set")
    ensures SlashFree("nan") && SpaceFree("nan") && SpaceFree("GET")
    ensures "thermostat" != "light"
  {
    assert "thermostat"[0] == 't' && "light"[0] == 'l';
  }

  lemma PlainSegment(n: int)
    ensures IntText(n) != "" && SlashFree(IntText(n)) && SpaceFree(IntText(n))
    ensures SlashFree("light") && SpaceFree("light") && SlashFree("brightness") && SpaceFree("brightness")
    ensures SpaceFree("GET")
  {
    hide Decimal;
    var d := Decimal(if n < 0 then -n else n);
    assert forall i :: 0 <= i < |d| ==> IsDigit(d[i]) && d[i] != '/' && !IsSpace(d[i]);
  }
}
