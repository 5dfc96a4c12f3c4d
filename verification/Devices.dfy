/** The devices the server controls: `src/devices/`. Only the fields that commands read or change. */
module Devices {
  import opened Text

  /** A C++ `double`, up to rounding. */
  datatype Double = NaN | NegativeInfinity | Finite(value: real) | PositiveInfinity

  /** `a < b`: false as soon as one side is NaN. */
  predicate Below(a: Double, b: Double) {
    && a != NaN && b != NaN && a != b
    && (a == NegativeInfinity || b == PositiveInfinity || (a.Finite? && b.Finite? && a.value < b.value))
  }

  /** Where a device is in the network. */
  datatype Place = Place(ip: string, mac: string)

  datatype LightState = LightState(place: Place, on: bool, brightness: int)
  datatype ThermostatState = ThermostatState(place: Place, target: Double)
  datatype CameraState = CameraState(place: Place, on: bool, armed: bool, motion: bool)

  /** Off, at full brightness. */
  function NewLight(place: Place): LightState { LightState(place, false, 100) }

  /** Set to 22 degrees. */
  function NewThermostat(place: Place): ThermostatState { ThermostatState(place, Finite(22.0)) }

  /** Off, disarmed, no motion seen. */
  function NewCamera(place: Place): CameraState { CameraState(place, false, false, false) }

  function Clamp(level: int): (r: int)
    ensures 0 <= r <= 100
    ensures level <= 0 ==> r == 0
    ensures 0 <= level <= 100 ==> r == level
    ensures level >= 100 ==> r == 100
  {
    if level < 0 then 0 else if level > 100 then 100 else level
  }

  predicate InRange(t: Double) {
    t.Finite? && 10.0 <= t.value <= 35.0
  }

  /** NaN is neither below 10 nor above 35 and passes through. */
  function ClampTemperature(t: Double): (r: Double)
    ensures InRange(r) <==> t != NaN
    ensures InRange(t) || t == NaN ==> r == t
    ensures t == NegativeInfinity || (t.Finite? && t.value <= 10.0) ==> r == Finite(10.0)
    ensures t == PositiveInfinity || (t.Finite? && t.value >= 35.0) ==> r == Finite(35.0)
  {
    if Below(t, Finite(10.0)) then Finite(10.0) else if Below(Finite(35.0), t) then Finite(35.0) else t
  }

  class Light {
    const ipAddress: string
    const macAddress: string
    var powerOn: bool
    var brightness: int

    function State(): LightState
      reads this
    {
      LightState(Place(ipAddress, macAddress), powerOn, brightness)
    }

    constructor (ipAddress: string, macAddress: string)
      ensures State() == NewLight(Place(ipAddress, macAddress))
      ensures !powerOn && brightness == 100
      ensures this.ipAddress == ipAddress && this.macAddress == macAddress
    {
      this.ipAddress, this.macAddress := ipAddress, macAddress;
      powerOn, brightness := false, 100;
    }

    method TurnOn()
      modifies this`powerOn
      ensures powerOn
    {
      powerOn := true;
    }

    method TurnOff()
      modifies this`powerOn
      ensures !powerOn
    {
      powerOn := false;
    }

    method SetBrightness(level: int)
      modifies this`brightness
      ensures brightness == Clamp(level)
      ensures brightness == if level < 0 then 0 else if level > 100 then 100 else level
    {
      var l := level;
      if l < 0 {
        l := 0;
      }
      if l > 100 {
        l := 100;
      }
      brightness := l;
    }
  }

  class Thermostat {
    const ipAddress: string
    const macAddress: string
    var targetTemperature: Double

    function State(): ThermostatState
      reads this
    {
      ThermostatState(Place(ipAddress, macAddress), targetTemperature)
    }

    constructor (ipAddress: string, macAddress: string)
      ensures State() == NewThermostat(Place(ipAddress, macAddress))
      ensures targetTemperature == Finite(22.0)
      ensures this.ipAddress == ipAddress && this.macAddress == macAddress
    {
      this.ipAddress, this.macAddress := ipAddress, macAddress;
      targetTemperature := Finite(22.0);
    }

    method SetTargetTemperature(temp: Double)
      modifies this`targetTemperature
      ensures targetTemperature == ClampTemperature(temp)
    {
      var t := temp;
      if Below(t, Finite(10.0)) {
        t := Finite(10.0);
      }
      if Below(Finite(35.0), t) {
        t := Finite(35.0);
      }
      targetTemperature := t;
    }
  }

  class SecurityCamera {
    const ipAddress: string
    const macAddress: string
    var powerOn: bool
    var armed: bool
    var motionDetected: bool

    function State(): CameraState
      reads this
    {
      CameraState(Place(ipAddress, macAddress), powerOn, armed, motionDetected)
    }

    constructor (ipAddress: string, macAddress: string)
      ensures State() == NewCamera(Place(ipAddress, macAddress))
      ensures !powerOn && !armed && !motionDetected
      ensures this.ipAddress == ipAddress && this.macAddress == macAddress
    {
      this.ipAddress, this.macAddress := ipAddress, macAddress;
      powerOn, armed, motionDetected := false, false, false;
    }

    method Arm()
      modifies this
      ensures State() == old(State()).(armed := true, on := true)
      ensures armed && powerOn && motionDetected == old(motionDetected)
    {
      armed := true;
      powerOn := true;
    }

    method Disarm()
      modifies this
      ensures State() == old(State()).(armed := false, motion := false)
      ensures !armed && !motionDetected && powerOn == old(powerOn)
    {
      armed := false;
      motionDetected := false;
    }
  }
}
