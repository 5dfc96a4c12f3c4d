/** What each request asks for, in the words of the request, and what runs of request texts do to the
    devices. */
module RequestTexts {
  import opened Text
  import opened Protocol
  import opened RoundTrips
  import opened Devices
  import opened Commands
  import opened CommandRuns

  /** The effect of a path on the house, and the status code and body of the answer. */
  function Outcome(h: House, segments: seq<string>, lib: Library): (House, int, string) {
    var c := DecodeSegments(segments, lib);
    var a := AnswerTo(h, c, lib);
    (Apply(h, c), a.code, a.body)
  }

  /** A request built for a path has the outcome of the path. */
  lemma BuiltRequestOutcome(verb: string, ps: seq<string>, body: string, h: House, lib: Library)
    requires verb != "" && SpaceFree(verb) && IsSegmentList(ps) && forall p :: p in ps ==> SpaceFree(p)
    requires var raw := RequestText(verb, "/" + Join(ps, '/'), body); !IsPing(raw) && !IsArp(raw)
    ensures var c := Decode(RequestText(verb, "/" + Join(ps, '/'), body), lib);
            && !c.Ping? && !c.ArpQuery?
            && Outcome(h, ps, lib) == (Apply(h, c), AnswerTo(h, c, lib).code, AnswerTo(h, c, lib).body)
  {
    hide Apply, AnswerTo, Decode, DecodeSegments, RequestText, Join, IsPing, IsArp;
    BuiltRequestIsDispatched(verb, ps, body, lib);
  }

  // ---------- the light ----------

  lemma LightSegments(action: string, tail: seq<string>)
    ensures var s := ["light", action] + tail;
            |s| >= 2 && s[0] == "light" && s[1] == action && s[2..] == tail
  {
  }

  lemma LightPath(h: House, action: string, tail: seq<string>, lib: Library)
    requires h.light.Some?
    ensures var c := DecodeLight(["light", action] + tail);
            Outcome(h, ["light", action] + tail, lib)
            == (h.(light := Some(ApplyLight(h.light.value, c))), AnswerLight(h.light, c, lib).code,
                AnswerLight(h.light, c, lib).body)
  {
    hide DecodeLight, ApplyLight, AnswerLight;
    LightSegments(action, tail);
  }

  /** What can be asked of the light, whatever follows in the path. */
  lemma LightRequests(h: House, l: LightState, tail: seq<string>, lib: Library)
    requires h.light == Some(l)
    ensures Outcome(h, ["light"], lib) == (h, 404, "Usage: /light/<action>")
    ensures Outcome(h, ["light", "status"] + tail, lib) == (h, 200, lib.lightText(l))
    ensures Outcome(h, ["light", "on"] + tail, lib) == (h.(light := Some(l.(on := true))), 200, "Light turned ON")
    ensures Outcome(h, ["light", "off"] + tail, lib) == (h.(light := Some(l.(on := false))), 200, "Light turned OFF")
  {
    hide Outcome;
    OnlyLight(h, l, lib);
    LightPath(h, "status", tail, lib);
    LightPath(h, "on", tail, lib);
    LightPath(h, "off", tail, lib);
    LightActions(tail);
  }

  lemma OnlyLight(h: House, l: LightState, lib: Library)
    requires h.light == Some(l)
    ensures Outcome(h, ["light"], lib) == (h, 404, "Usage: /light/<action>")
  {
  }

  lemma LightActions(tail: seq<string>)
    ensures DecodeLight(["light", "status"] + tail) == LightStatus
    ensures DecodeLight(["light", "on"] + tail) == LightOn
    ensures DecodeLight(["light", "off"] + tail) == LightOff
  {
    hide Stoi;
    LightSegments("status", tail);
    LightSegments("on", tail);
    LightSegments("off", tail);
    Words();
  }

  lemma Words()
    ensures "status" != "on" && "status" != "off" && "on" != "off" && "brightness" != "on" && "brightness" != "off"
    ensures "brightness" != "status" && "set" != "status" && "arm" != "status" && "disarm" != "status"
    ensures "disarm" != "arm"
    ensures "thermostat" != "light" && "security" != "light" && "devices" != "light"
    ensures "security" != "thermostat" && "devices" != "thermostat" && "devices" != "security"
  {
    assert "disarm"[0] == 'd' && "status"[0] == 's';
  }

  /** Setting the brightness: the number is clamped to 0..100 and answered as it was asked for; a text
      that is no number changes nothing. */
  lemma BrightnessRequests(h: House, l: LightState, v: string, tail: seq<string>, lib: Library)
    requires h.light == Some(l)
    ensures Outcome(h, ["light", "brightness", v] + tail, lib)
            == match Stoi(v)
               case None => (h, 500, "Invalid brightness value")
               case Some(n) =>
                 (h.(light := Some(l.(brightness := if n < 0 then 0 else if n > 100 then 100 else n))), 200,
                  "Brightness set to " + IntText(n))
    ensures Outcome(h, ["light", "brightness"], lib) == (h, 404, "Unknown light action: brightness")
  {
    hide Stoi, IntText, Outcome;
    Words();
    assert ["light", "brightness", v] + tail == ["light", "brightness"] + ([v] + tail);
    LightPath(h, "brightness", [v] + tail, lib);
    LightSegments("brightness", [v] + tail);
    assert ["light", "brightness"] + [] == ["light", "brightness"];
    LightPath(h, "brightness", [], lib);
    assert "Unknown light action: " + "brightness" == "Unknown light action: brightness";
  }

  /** Anything else asked of the light changes nothing. */
  lemma OtherLightRequests(h: House, action: string, tail: seq<string>, lib: Library)
    requires h.light.Some? && action !in {"status", "on", "off", "brightness"}
    ensures Outcome(h, ["light", action] + tail, lib) == (h, 404, "Unknown light action: " + action)
  {
    hide Stoi, Outcome;
    LightPath(h, action, tail, lib);
    LightSegments(action, tail);
  }

  // ---------- the thermostat ----------

  lemma ThermostatPath(h: House, action: string, tail: seq<string>, lib: Library)
    requires h.thermostat.Some?
    ensures var c := DecodeThermostat(["thermostat", action] + tail, lib);
            Outcome(h, ["thermostat", action] + tail, lib)
            == (h.(thermostat := Some(ApplyThermostat(h.thermostat.value, c))),
                AnswerThermostat(h.thermostat, c, lib).code, AnswerThermostat(h.thermostat, c, lib).body)
  {
    hide DecodeThermostat, ApplyThermostat, AnswerThermostat;
    Words();
    var s := ["thermostat", action] + tail;
    assert s[0] == "thermostat" && s[1] == action;
  }

  /** What can be asked of the thermostat. */
  lemma ThermostatRequests(h: House, t: ThermostatState, v: string, tail: seq<string>, lib: Library)
    requires h.thermostat == Some(t)
    ensures Outcome(h, ["thermostat", "status"] + tail, lib) == (h, 200, lib.thermostatText(t))
    ensures Outcome(h, ["thermostat", "set", v] + tail, lib)
            == match lib.stod(v)
               case None => (h, 500, "Invalid temperature value")
               case Some(temp) =>
                 (h.(thermostat := Some(t.(target := ClampTemperature(temp)))), 200, "Temperature set to " + v + " C")
    ensures Outcome(h, ["thermostat", "set"], lib) == (h, 404, "Unknown thermostat action: set")
  {
    hide Outcome, ClampTemperature;
    Words();
    ThermostatPath(h, "status", tail, lib);
    var s := ["thermostat", "status"] + tail;
    assert s[1] == "status";
    assert ["thermostat", "set", v] + tail == ["thermostat", "set"] + ([v] + tail);
    ThermostatPath(h, "set", [v] + tail, lib);
    var r := ["thermostat", "set"] + ([v] + tail);
    assert r[1] == "set" && r[2] == v;
    assert ["thermostat", "set"] + [] == ["thermostat", "set"];
    ThermostatPath(h, "set", [], lib);
    assert "Unknown thermostat action: " + "set" == "Unknown thermostat action: set";
  }

  lemma OtherThermostatRequests(h: House, action: string, tail: seq<string>, lib: Library)
    requires h.thermostat.Some? && action !in {"status", "set"}
    ensures Outcome(h, ["thermostat", action] + tail, lib) == (h, 404, "Unknown thermostat action: " + action)
    ensures Outcome(h, ["thermostat"], lib) == (h, 404, "Usage: /thermostat/<action>")
  {
    Words();
    var s := ["thermostat", action] + tail;
    assert s[0] == "thermostat" && s[1] == action;
  }

  // ---------- the camera ----------

  lemma CameraPath(h: House, action: string, tail: seq<string>, lib: Library)
    requires h.camera.Some?
    ensures var c := DecodeCamera(["security", action] + tail);
            Outcome(h, ["security", action] + tail, lib)
            == (h.(camera := Some(ApplyCamera(h.camera.value, c))), AnswerCamera(h.camera, c, lib).code,
                AnswerCamera(h.camera, c, lib).body)
    ensures (["security", action] + tail)[1] == action
  {
    hide DecodeCamera, ApplyCamera, AnswerCamera;
    Words();
    var s := ["security", action] + tail;
    assert s[0] == "security" && s[1] == action;
  }

  /** What can be asked of the camera. */
  lemma CameraRequests(h: House, cam: CameraState, tail: seq<string>, lib: Library)
    requires h.camera == Some(cam)
    ensures Outcome(h, ["security"], lib) == (h, 404, "Usage: /security/<action>")
    ensures Outcome(h, ["security", "status"] + tail, lib) == (h, 200, lib.cameraText(cam))
    ensures Outcome(h, ["security", "arm"] + tail, lib)
            == (h.(camera := Some(cam.(armed := true, on := true))), 200, "Security camera armed")
    ensures Outcome(h, ["security", "disarm"] + tail, lib)
            == (h.(camera := Some(cam.(armed := false, motion := false))), 200, "Security camera disarmed")
  {
    hide Outcome;
    Words();
    OnlySecurity(h, lib);
    CameraPath(h, "status", tail, lib);
    CameraPath(h, "arm", tail, lib);
    CameraPath(h, "disarm", tail, lib);
  }

  lemma OnlySecurity(h: House, lib: Library)
    requires h.camera.Some?
    ensures Outcome(h, ["security"], lib) == (h, 404, "Usage: /security/<action>")
  {
    Words();
  }

  lemma OtherCameraRequests(h: House, action: string, tail: seq<string>, lib: Library)
    requires h.camera.Some? && action !in {"status", "arm", "disarm"}
    ensures Outcome(h, ["security", action] + tail, lib) == (h, 404, "Unknown security action: " + action)
  {
    hide Outcome;
    CameraPath(h, action, tail, lib);
  }

  // ---------- everything else ----------

  /** Requests that concern no single device, and requests for a device that is not there. */
  lemma OtherRequests(h: House, resource: string, tail: seq<string>, lib: Library)
    ensures Outcome(h, [], lib) == (h, 404, "No command specified")
    ensures Outcome(h, ["devices"] + tail, lib) == (h, 200, lib.listText(h))
    ensures resource !in {"light", "thermostat", "security", "devices"} ==>
              Outcome(h, [resource] + tail, lib) == (h, 404, "Unknown resource: " + resource)
    ensures h.light.None? ==> Outcome(h, ["light"] + tail, lib) == (h, 500, "Light not found")
    ensures h.thermostat.None? ==> Outcome(h, ["thermostat"] + tail, lib) == (h, 500, "Thermostat not found")
    ensures h.camera.None? ==> Outcome(h, ["security"] + tail, lib) == (h, 500, "Security camera not found")
  {
    hide DecodeLight, DecodeThermostat, DecodeCamera;
    Words();
    assert ([resource] + tail)[0] == resource && (["devices"] + tail)[0] == "devices";
    assert (["light"] + tail)[0] == "light" && (["thermostat"] + tail)[0] == "thermostat";
    assert (["security"] + tail)[0] == "security";
  }

  /** A PING or ARP text without a target gets a usage answer. */
  lemma UsageAnswers(h: House, lib: Library)
    ensures AnswerTo(h, PingUsage, lib) == Answer(500, "Usage: PING <ip>") && Apply(h, PingUsage) == h
    ensures AnswerTo(h, ArpUsage, lib) == Answer(500, "Usage: ARP <ip>") && Apply(h, ArpUsage) == h
  {
  }

  /** Four new devices: both lights off at full brightness, the thermostat at 22 degrees, the camera off
      and disarmed, each at its own place. */
  lemma NewDevices(places: seq<Place>)
    requires |places| == 4
    ensures Installed(NO_DEVICES, places)
            == House(Some(LightState(places[0], false, 100)), Some(LightState(places[1], false, 100)),
                     Some(ThermostatState(places[2], Finite(22.0))),
                     Some(CameraState(places[3], false, false, false)))
  {
  }

  lemma LightCommandTexts(lib: Library)
    ensures Decode(RequestText("GET", "/light/on", ""), lib) == ToLight(LightOn)
    ensures Decode(RequestText("GET", "/light/off", ""), lib) == ToLight(LightOff)
  {
    hide Decode, RequestText;
    Words();
    TwoWords("light", "on", "/light/on", lib);
    TwoWords("light", "off", "/light/off", lib);
  }

  lemma CameraCommandTexts(lib: Library)
    ensures Decode(RequestText("GET", "/security/arm", ""), lib) == ToCamera(Arm)
    ensures Decode(RequestText("GET", "/security/disarm", ""), lib) == ToCamera(Disarm)
  {
    hide Decode, RequestText;
    Words();
    TwoWords("security", "arm", "/security/arm", lib);
    TwoWords("security", "disarm", "/security/disarm", lib);
  }

  /** Commands from the client's help text, as they arrive. */
  lemma HelpCommands(lib: Library)
    ensures Decode(RequestText("GET", "/light/on", ""), lib) == ToLight(LightOn)
    ensures Decode(RequestText("GET", "/light/off", ""), lib) == ToLight(LightOff)
    ensures Decode(RequestText("GET", "/security/arm", ""), lib) == ToCamera(Arm)
    ensures Decode(RequestText("GET", "/security/disarm", ""), lib) == ToCamera(Disarm)
  {
    hide Decode, RequestText;
    LightCommandTexts(lib);
    CameraCommandTexts(lib);
  }

  lemma TwoWords(resource: string, action: string, path: string, lib: Library)
    requires resource != "" && SlashFree(resource) && SpaceFree(resource)
    requires action != "" && SlashFree(action) && SpaceFree(action) && path == "/" + resource + "/" + action
    ensures Decode(RequestText("GET", path, ""), lib) == DecodeSegments([resource, action], lib)
  {
    hide Segments, Parse, RequestText, IsPing, IsArp, Decode, DecodeSegments;
    var ps := [resource, action];
    assert ps[1..] == [action];
    assert "/" + Join(ps, '/') == path by {
      Regroup3("/" + resource, "/", action);
      assert "/" + (resource + "/" + action) == "/" + resource + "/" + action;
    }
    var rest := BuiltGet(path, "");
    GetIsNoPing(rest);
    PlainSegment(0);
    BuiltRequestIsDispatched("GET", ps, "", lib);
  }

  // ---------- runs of texts ----------

  /** The path segments of a protocol request; a PING or ARP command has none. */
  function PathOf(raw: string): seq<string> {
    if "PING" <= raw || "ping" <= raw || "ARP" <= raw || "arp" <= raw then [] else Segments(Parse(raw).path)
  }

  /** The request's path starts with these two words. */
  predicate Says(raw: string, resource: string, action: string) {
    var s := PathOf(raw);
    |s| >= 2 && s[0] == resource && s[1] == action
  }

  lemma SwitchTexts(raw: string, lib: Library)
    ensures Decode(raw, lib) == ToLight(LightOn) <==> Says(raw, "light", "on")
    ensures Decode(raw, lib) == ToLight(LightOff) <==> Says(raw, "light", "off")
  {
    hide Segments, Parse, Target, Stoi, DecodeThermostat, DecodeCamera;
    Words();
  }

  lemma ArmingTexts(raw: string, lib: Library)
    ensures Decode(raw, lib) == ToCamera(Arm) <==> Says(raw, "security", "arm")
    ensures Decode(raw, lib) == ToCamera(Disarm) <==> Says(raw, "security", "disarm")
  {
    hide Segments, Parse, Target, DecodeLight, DecodeThermostat;
    Words();
  }

  /** The brightness a request sets, if it sets one. */
  function LevelOf(raw: string): Option<int> {
    if Says(raw, "light", "brightness") && |PathOf(raw)| >= 3 then Stoi(PathOf(raw)[2]) else None
  }

  lemma BrightnessTexts(raw: string, lib: Library)
    ensures IsDim(Decode(raw, lib)) <==> LevelOf(raw).Some?
    ensures LevelOf(raw).Some? ==> Decode(raw, lib) == ToLight(SetBrightness(LevelOf(raw).value))
  {
    hide Segments, Parse, Target, Stoi, DecodeThermostat, DecodeCamera;
    Words();
  }

  /** The temperature a request sets, if it sets one. */
  function TemperatureOf(raw: string, lib: Library): Option<Double> {
    if Says(raw, "thermostat", "set") && |PathOf(raw)| >= 3 then lib.stod(PathOf(raw)[2]) else None
  }

  lemma TemperatureTexts(raw: string, lib: Library)
    ensures IsSetting(Decode(raw, lib)) <==> TemperatureOf(raw, lib).Some?
    ensures TemperatureOf(raw, lib).Some? ==>
              IsSetting(Decode(raw, lib)) && Decode(raw, lib).thermostat.temp == TemperatureOf(raw, lib).value
  {
    hide Segments, Parse, Target, DecodeLight, DecodeCamera;
    Words();
  }

  lemma DecodedLast(raws: seq<string>, t: int, kind: Command -> bool, lib: Library)
    requires 0 <= t < |raws| && kind(Decode(raws[t], lib))
    requires forall u :: t < u < |raws| ==> !kind(Decode(raws[u], lib))
    ensures LastOf(DecodeAll(raws, lib), t, kind)
  {
    hide Decode;
  }

  predicate SaysSwitch(raw: string) {
    Says(raw, "light", "on") || Says(raw, "light", "off")
  }

  predicate SaysArming(raw: string) {
    Says(raw, "security", "arm") || Says(raw, "security", "disarm")
  }

  /** The light is on exactly if the last request for /light/on or /light/off was for on. */
  lemma PowerFollowsTexts(h: House, raws: seq<string>, lib: Library, t: int)
    requires h.light.Some? && 0 <= t < |raws| && SaysSwitch(raws[t])
    requires forall u :: t < u < |raws| ==> !SaysSwitch(raws[u])
    ensures var after := Run(h, DecodeAll(raws, lib));
            after.light.Some? && (after.light.value.on <==> Says(raws[t], "light", "on"))
  {
    hide Decode, Says, Run, LastOf;
    forall u | t <= u < |raws| ensures IsSwitch(Decode(raws[u], lib)) <==> SaysSwitch(raws[u]) {
      SwitchTexts(raws[u], lib);
    }
    DecodedLast(raws, t, IsSwitch, lib);
    PowerFollowsLastSwitch(h, DecodeAll(raws, lib));
    SwitchTexts(raws[t], lib);
  }

  /** The camera is armed exactly if the last request for /security/arm or /security/disarm was to arm. */
  lemma ArmingFollowsTexts(h: House, raws: seq<string>, lib: Library, t: int)
    requires h.camera.Some? && 0 <= t < |raws| && SaysArming(raws[t])
    requires forall u :: t < u < |raws| ==> !SaysArming(raws[u])
    ensures var after := Run(h, DecodeAll(raws, lib));
            after.camera.Some? && (after.camera.value.armed <==> Says(raws[t], "security", "arm"))
  {
    hide Decode, Says, Run, LastOf;
    forall u | t <= u < |raws| ensures IsArming(Decode(raws[u], lib)) <==> SaysArming(raws[u]) {
      ArmingTexts(raws[u], lib);
    }
    DecodedLast(raws, t, IsArming, lib);
    ArmedFollowsLastArming(h, DecodeAll(raws, lib));
    ArmingTexts(raws[t], lib);
  }

  /** The brightness is the number of the last request for /light/brightness/<number>, or the end of 0..100
      nearest to it. */
  lemma BrightnessFollowsTexts(h: House, raws: seq<string>, lib: Library, t: int)
    requires h.light.Some? && 0 <= t < |raws| && LevelOf(raws[t]).Some?
    requires forall u :: t < u < |raws| ==> LevelOf(raws[u]).None?
    ensures var after, n := Run(h, DecodeAll(raws, lib)), LevelOf(raws[t]).value;
            after.light.Some? && after.light.value.brightness == if n < 0 then 0 else if n > 100 then 100 else n
  {
    hide Decode, LevelOf, Run, LastOf;
    forall u | t <= u < |raws| ensures IsDim(Decode(raws[u], lib)) <==> LevelOf(raws[u]).Some? {
      BrightnessTexts(raws[u], lib);
    }
    DecodedLast(raws, t, IsDim, lib);
    BrightnessFollowsLastSetting(h, DecodeAll(raws, lib));
    BrightnessTexts(raws[t], lib);
  }

  /** The target is the temperature of the last request for /thermostat/set/<number>, clamped. */
  lemma TemperatureFollowsTexts(h: House, raws: seq<string>, lib: Library, t: int)
    requires h.thermostat.Some? && 0 <= t < |raws| && TemperatureOf(raws[t], lib).Some?
    requires forall u :: t < u < |raws| ==> TemperatureOf(raws[u], lib).None?
    ensures var after := Run(h, DecodeAll(raws, lib));
            after.thermostat.Some?
            && after.thermostat.value.target == ClampTemperature(TemperatureOf(raws[t], lib).value)
  {
    hide Decode, TemperatureOf, Run, LastOf, ClampTemperature;
    forall u | t <= u < |raws| ensures IsSetting(Decode(raws[u], lib)) <==> TemperatureOf(raws[u], lib).Some? {
      TemperatureTexts(raws[u], lib);
    }
    DecodedLast(raws, t, IsSetting, lib);
    TargetFollowsLastSetting(h, DecodeAll(raws, lib));
    TemperatureTexts(raws[t], lib);
  }

  /** A run of texts none of which sets anything changes nothing. */
  lemma {:induction false} OtherTextsChangeNothing(h: House, raws: seq<string>, lib: Library)
    requires forall r :: r in raws ==>
               !SaysSwitch(r) && !SaysArming(r) && LevelOf(r).None? && TemperatureOf(r, lib).None?
    ensures Run(h, DecodeAll(raws, lib)) == h
  {
    hide Decode, Says, LevelOf, TemperatureOf, Apply;
    if raws != [] {
      var n := |raws| - 1;
      var cmds := DecodeAll(raws, lib);
      assert cmds[..n] == DecodeAll(raws[..n], lib);
      assert raws[n] in raws && forall r :: r in raws[..n] ==> r in raws;
      OtherTextsChangeNothing(h, raws[..n], lib);
      SwitchTexts(raws[n], lib);
      ArmingTexts(raws[n], lib);
      BrightnessTexts(raws[n], lib);
      TemperatureTexts(raws[n], lib);
      OnlyEffectiveCommandsChange(cmds[n]);
    }
  }

  /** A request built for a path of two or more words says them. */
  lemma BuiltRequestSays(verb: string, resource: string, action: string, tail: seq<string>, body: string)
    requires verb != "" && SpaceFree(verb)
    requires var ps := [resource, action] + tail; IsSegmentList(ps) && forall p :: p in ps ==> SpaceFree(p)
    requires var raw := RequestText(verb, "/" + Join([resource, action] + tail, '/'), body); !IsPing(raw) && !IsArp(raw)
    ensures PathOf(RequestText(verb, "/" + Join([resource, action] + tail, '/'), body)) == [resource, action] + tail
    ensures Says(RequestText(verb, "/" + Join([resource, action] + tail, '/'), body), resource, action)
  {
    hide Segments, Parse, RequestText, Join;
    SegmentsDelivered(verb, [resource, action] + tail, body);
    assert ([resource, action] + tail)[0] == resource && ([resource, action] + tail)[1] == action;
  }
}
