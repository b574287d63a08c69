/** The field registry and device life-cycle of src/app_fields.c. */
module Fields {
  import opened Bytes
  import opened Wire
  import opened Tlv

  const MODEL_NAME: seq<byte> := [0x52, 0x4C, 0x5F, 0x54, 0x4E, 0x31, 0x30, 0x30]  // "RL_TN100"
  const SERIAL_NUMBER: seq<byte> := [0x31, 0x32, 0x33, 0x34, 0x35, 0x36]           // "123456"

  // ---- Signed casts ----

  function ToI32(v: word): i32 { if v as int < 0x8000_0000 then v as int else v as int - 0x1_0000_0000 }
  function FromI32(v: i32): word { (if v < 0 then v + 0x1_0000_0000 else v) as word }
  function FromI16(v: i16): u16 { if v < 0 then v + 0x1_0000 else v }

  // ---- Permissions, lengths and values ----

  predicate IsReadable(id: byte)
  {
    id in {DEVICE_STATE, DEVICE_TYPE, MODEL, SERIAL, FW_VER, HW_VER, PROTOCOL_VERSION, BATTERY, TEMPERATURE, DISTANCE,
           POSITION, MODE, UPDATE_INTERVAL, INSTALL_LOCATION, GNSS_FIX, LATITUDE, LONGITUDE, ALTITUDE}
  }

  predicate IsWritable(id: byte)
  {
    id == MODE || id == UPDATE_INTERVAL || id == INSTALL_LOCATION
  }

  /** The fixed length of a field value, 0 when it varies or the field is unknown. */
  function ValueLen(id: byte): nat
  {
    if id in {DEVICE_STATE, DEVICE_TYPE, PROTOCOL_VERSION, BATTERY, POSITION, MODE, GNSS_FIX} then 1
    else if id in {TEMPERATURE, DISTANCE, UPDATE_INTERVAL, ALTITUDE} then 2
    else if id in {FW_VER, HW_VER} then 3
    else if id in {LATITUDE, LONGITUDE} then 4
    else if id == INSTALL_LOCATION then 8
    else 0
  }

  predicate LocationInRange(lat: int, lng: int)
  {
    -900_000_000 <= lat <= 900_000_000 && -1_800_000_000 <= lng <= 1_800_000_000
  }

  /** app_field_validate. */
  function Validate(id: byte, value: seq<byte>): byte
  {
    if !IsReadable(id) then UNSUPPORTED
    else if !IsWritable(id) then UNSUPPORTED
    else if ValueLen(id) > 0 && |value| != ValueLen(id) then PARAM_LEN
    else if id == MODE then
      if value[0] < 0x01 || value[0] > 0x03 then PARAM_VALUE else OK
    else if id == INSTALL_LOCATION then
      var lat, lng := ToI32(Get32Be(value[..4])), ToI32(Get32Be(value[4..]));
      if !LocationInRange(lat, lng) then PARAM_VALUE else OK
    else OK
  }

  // ---- The registry ----

  datatype Registry = Registry(
    deviceState: byte, initDone: bool,
    battery: byte, temperature: i16, distance: u16, position: byte,
    mode: byte, updateInterval: u16, installLat: i32, installLng: i32,
    gnssFix: byte, latitude: i32, longitude: i32, altitude: i16
  )

  /** app_fields_init keeps the sensor readings and restores the rest. */
  function Reset(r: Registry): Registry
  {
    r.(deviceState := FACTORY, initDone := false, mode := 0x02, updateInterval := 0,
       installLat := 246_087_800, installLng := 1_180_689_300,
       gnssFix := 0x01, latitude := 246_087_800, longitude := 1_180_689_300, altitude := 15)
  }

  /** The values the statics start with. */
  function PowerUp(): Registry
  {
    Registry(FACTORY, false, 100, 250, 15, 0x00, 0x02, 0, 246_087_800, 1_180_689_300,
             0x01, 246_087_800, 1_180_689_300, 15)
  }

  /** The value bytes of a field, none when it cannot be read. */
  function Get(r: Registry, id: byte): (v: seq<byte>)
    ensures v != [] <==> IsReadable(id)
    ensures |v| <= 8 && (ValueLen(id) > 0 ==> |v| == ValueLen(id))
  {
    if id == DEVICE_STATE then [r.deviceState]
    else if id == DEVICE_TYPE then [0x01]
    else if id == MODEL then MODEL_NAME
    else if id == SERIAL then SERIAL_NUMBER
    else if id == FW_VER then [1, 0, 0]
    else if id == HW_VER then [1, 0, 0]
    else if id == PROTOCOL_VERSION then [0x20]
    else if id == BATTERY then [r.battery]
    else if id == TEMPERATURE then Put16Be(FromI16(r.temperature))
    else if id == DISTANCE then Put16Be(r.distance)
    else if id == POSITION then [r.position]
    else if id == MODE then [r.mode]
    else if id == UPDATE_INTERVAL then Put16Be(r.updateInterval)
    else if id == INSTALL_LOCATION then Put32Be(FromI32(r.installLat)) + Put32Be(FromI32(r.installLng))
    else if id == GNSS_FIX then [r.gnssFix]
    else if id == LATITUDE then Put32Be(FromI32(r.latitude))
    else if id == LONGITUDE then Put32Be(FromI32(r.longitude))
    else if id == ALTITUDE then Put16Be(FromI16(r.altitude))
    else []
  }

  /** What app_field_get puts into a buffer of `max` bytes: strings are cut, other values need their whole length. */
  function GetUpTo(r: Registry, id: byte, max: nat): seq<byte>
  {
    var v := Get(r, id);
    if |v| <= max then v else if id == MODEL || id == SERIAL then v[..max] else []
  }

  /** `value` holds the bytes app_field_set looks at: it checks neither the length nor the value. */
  predicate LongEnough(id: byte, value: seq<byte>)
  {
    IsWritable(id) ==> |value| >= ValueLen(id)
  }

  /** app_field_set; other fields are ignored. */
  function Set(r: Registry, id: byte, value: seq<byte>): Registry
    requires LongEnough(id, value)
  {
    if id == MODE then r.(mode := value[0])
    else if id == UPDATE_INTERVAL then r.(updateInterval := Get16Be(value[..2]))
    else if id == INSTALL_LOCATION then
      var lat, lng := ToI32(Get32Be(value[..4])), ToI32(Get32Be(value[4..8]));
      r.(installLat := lat, installLng := lng, gnssFix := 0x01, latitude := lat, longitude := lng, altitude := 0)
    else r
  }

  function MarkInitDone(r: Registry): Registry
  {
    if r.deviceState == FACTORY then r.(initDone := true, deviceState := POWER_ON) else r.(initDone := true)
  }

  predicate AllValid(fs: seq<Field>)
  {
    forall f <- fs :: Validate(f.id, f.value) == OK
  }

  /** The in-order fold of app_field_set. */
  function SetAll(r: Registry, fs: seq<Field>): Registry
    requires AllValid(fs)
  {
    if fs == [] then r else Set(SetAll(r, fs[..|fs| - 1]), fs[|fs| - 1].id, fs[|fs| - 1].value)
  }

  // ---- Reading back what was written ----

  lemma CastsAreInverse(s: seq<byte>)
    requires |s| == 4
    ensures Put32Be(FromI32(ToI32(Get32Be(s)))) == s
  {
    Get32Inverse(s);
  }

  /** The number four bytes denote in two's complement. */
  function Signed32(s: seq<byte>): int
    requires |s| == 4
  {
    var n := FromBigEndian(s);
    if n < 0x8000_0000 then n else n - 0x1_0000_0000
  }

  /** Exactly these values are accepted, and which error the others get. */
  lemma ValidateIs(id: byte, v: seq<byte>)
    ensures Validate(id, v) == 0x00 <==>
            || (id == 0x20 && |v| == 1 && 1 <= v[0] <= 3)
            || (id == 0x21 && |v| == 2)
            || (id == 0x22 && |v| == 8 && -900_000_000 <= Signed32(v[..4]) <= 900_000_000
                && -1_800_000_000 <= Signed32(v[4..]) <= 1_800_000_000)
    ensures Validate(id, v) == 0x01 <==> id !in {0x20, 0x21, 0x22}
    ensures Validate(id, v) == 0x05 <==>
            (id == 0x20 && |v| != 1) || (id == 0x21 && |v| != 2) || (id == 0x22 && |v| != 8)
    ensures Validate(id, v) in {0x00, 0x01, 0x05, 0x06}
  {
    hide Get32Be, FromBigEndian;
    if id == 0x22 && |v| == 8 {
      Get32IsBigEndian(v[..4]);
      Get32IsBigEndian(v[4..]);
    }
  }

  /** What the bytes of each field denote. */
  lemma FieldMeaning(r: Registry)
    ensures Get(r, 0x01) == [r.deviceState] && Get(r, 0x10) == [r.battery] && Get(r, 0x13) == [r.position]
    ensures Get(r, 0x20) == [r.mode] && Get(r, 0x23) == [r.gnssFix]
    ensures FromBigEndian(Get(r, 0x11)) == r.temperature % 0x1_0000
    ensures FromBigEndian(Get(r, 0x26)) == r.altitude % 0x1_0000
    ensures FromBigEndian(Get(r, 0x12)) == r.distance && FromBigEndian(Get(r, 0x21)) == r.updateInterval
    ensures Signed32(Get(r, 0x24)) == r.latitude && Signed32(Get(r, 0x25)) == r.longitude
    ensures Get(r, 0x22)[..4] == Put32Be(FromI32(r.installLat)) && Get(r, 0x22)[4..] == Put32Be(FromI32(r.installLng))
  {
    hide Put32Be, Put16Be, Get16Be, Get32Be, FromBigEndian;
    TwoBytes(FromI16(r.temperature));
    TwoBytes(FromI16(r.altitude));
    TwoBytes(r.distance);
    TwoBytes(r.updateInterval);
    FourBytes(r.latitude);
    FourBytes(r.longitude);
  }

  lemma TwoBytes(v: u16)
    ensures FromBigEndian(Put16Be(v)) == v
  {
    hide FromBigEndian;
    Put16IsBigEndian(v);
    Get16IsBigEndian(Put16Be(v));
  }

  lemma FourBytes(v: i32)
    ensures Signed32(Put32Be(FromI32(v))) == v
  {
    hide FromBigEndian, Put32Be, Get32Be;
    Put32IsBigEndian(FromI32(v));
    Get32IsBigEndian(Put32Be(FromI32(v)));
  }

  /** What a device that was never written reads. */
  lemma PowerUpIdentity()
    ensures var r := PowerUp();
            && Get(r, 0x01) == [0x00] && Get(r, 0x02) == [0x01]
            && Get(r, 0x03) == Ascii("RL_TN100") && Get(r, 0x04) == Ascii("123456")
            && Get(r, 0x05) == [1, 0, 0] && Get(r, 0x06) == [1, 0, 0] && Get(r, 0x07) == [0x20]
  {
  }

  lemma PowerUpReadings()
    ensures var r := PowerUp();
            && Get(r, 0x10) == [100] && Get(r, 0x11) == [0x00, 0xfa]
            && Get(r, 0x12) == [0x00, 0x0f] && Get(r, 0x13) == [0x00]
  {
  }

  lemma PowerUpSettings()
    ensures var r := PowerUp();
            && Get(r, 0x20) == [0x02] && Get(r, 0x21) == [0x00, 0x00]
            && Get(r, 0x22) == [0x0e, 0xab, 0x00, 0x78, 0x46, 0x5f, 0xe3, 0x94]
            && Get(r, 0x23) == [0x01]
            && Get(r, 0x24) == [0x0e, 0xab, 0x00, 0x78] && Get(r, 0x25) == [0x46, 0x5f, 0xe3, 0x94]
            && Get(r, 0x26) == [0x00, 0x0f] && !r.initDone
  {
  }

  /** After app_fields_init every field reads as on such a device, the four sensor readings aside. */
  lemma ReadsAfterReset(r: Registry, id: byte)
    ensures Get(Reset(r), id) == if id in {0x10, 0x11, 0x12, 0x13} then Get(r, id) else Get(PowerUp(), id)
    ensures !Reset(r).initDone
  {
    hide Put32Be, Put16Be;
  }

  /** What a buffer of `max` bytes receives: the value if it fits, else a beginning of the two strings only. */
  lemma GetUpToIs(r: Registry, id: byte, max: nat)
    ensures var v := GetUpTo(r, id, max);
            && v <= Get(r, id)
            && |v| == if |Get(r, id)| <= max then |Get(r, id)| else if id == 0x03 || id == 0x04 then max else 0
  {
    hide Get;
  }

  /**
   * A written field reads back as the bytes written, and an installation location sets the position as
   * well. Bytes beyond the field's length and fields that cannot be written are ignored.
   */
  lemma GetAfterSet(r: Registry, id: byte, value: seq<byte>)
    requires LongEnough(id, value)
    ensures if IsWritable(id) then Get(Set(r, id, value), id) == value[..ValueLen(id)] else Set(r, id, value) == r
    ensures Validate(id, value) == OK ==> Get(Set(r, id, value), id) == value
    ensures id == INSTALL_LOCATION ==>
              Get(Set(r, id, value), LATITUDE) == value[..4] && Get(Set(r, id, value), LONGITUDE) == value[4..8]
    ensures id == INSTALL_LOCATION ==>
              Get(Set(r, id, value), GNSS_FIX) == [0x01] && Get(Set(r, id, value), ALTITUDE) == [0x00, 0x00]
  {
    hide Put32Be, Get32Be;
    if id == INSTALL_LOCATION {
      CastsAreInverse(value[..4]);
      CastsAreInverse(value[4..8]);
    }
    assert IsWritable(id) && |value| == ValueLen(id) ==> value[..ValueLen(id)] == value;
  }

  /** Writing one field leaves the others alone, the position aside. */
  lemma GetOtherAfterSet(r: Registry, id: byte, value: seq<byte>, other: byte)
    requires LongEnough(id, value) && other != id
    requires id == INSTALL_LOCATION ==> other !in {GNSS_FIX, LATITUDE, LONGITUDE, ALTITUDE}
    ensures Get(Set(r, id, value), other) == Get(r, other)
  {
    hide Put32Be, Get32Be, Put16Be, Get16Be;
  }

  /** The last position in `fs` holding field `id`. */
  predicate LastWith(fs: seq<Field>, k: nat, id: byte)
  {
    k < |fs| && fs[k].id == id && forall j :: k < j < |fs| ==> fs[j].id != id
  }

  /** After a multi-field write every written field reads back as its last value in the list. */
  lemma {:induction false} GetAfterSetAll(r: Registry, fs: seq<Field>, k: nat)
    requires AllValid(fs) && k < |fs| && LastWith(fs, k, fs[k].id)
    ensures Get(SetAll(r, fs), fs[k].id) == fs[k].value
    ensures fs[k].id == INSTALL_LOCATION ==>
              Get(SetAll(r, fs), LATITUDE) == fs[k].value[..4] && Get(SetAll(r, fs), LONGITUDE) == fs[k].value[4..]
  {
    hide Get, Set, Validate;
    var pre, f := fs[..|fs| - 1], fs[|fs| - 1];
    var r1 := SetAll(r, pre);
    ValidIsWritable(f.id, f.value);
    if k == |fs| - 1 {
      GetAfterSet(r1, f.id, f.value);
    } else {
      GetAfterSetAll(r, pre, k);
      ValidIsWritable(fs[k].id, fs[k].value);
      GetOtherAfterSet(r1, f.id, f.value, fs[k].id);
      if fs[k].id == INSTALL_LOCATION {
        GetOtherAfterSet(r1, f.id, f.value, LATITUDE);
        GetOtherAfterSet(r1, f.id, f.value, LONGITUDE);
      }
    }
  }

  lemma ValidIsWritable(id: byte, value: seq<byte>)
    requires Validate(id, value) == OK
    ensures IsWritable(id) && LongEnough(id, value)
    ensures id == INSTALL_LOCATION ==> |value| == 8
  {
  }

  // ---- Invariants of the store ----

  predicate InRange(r: Registry)
  {
    && 1 <= r.mode <= 3
    && LocationInRange(r.installLat, r.installLng)
    && r.latitude == r.installLat && r.longitude == r.installLng
  }

  lemma {:induction false} SetAllInRange(r: Registry, fs: seq<Field>)
    requires InRange(r) && AllValid(fs)
    ensures InRange(SetAll(r, fs))
  {
    hide Get32Be;
    if fs != [] {
      var f := fs[|fs| - 1];
      SetAllInRange(r, fs[..|fs| - 1]);
      assert f.id == INSTALL_LOCATION ==> f.value[4..8] == f.value[4..];
    }
  }

  lemma {:induction false} SetAllKeepsState(r: Registry, fs: seq<Field>)
    requires AllValid(fs)
    ensures SetAll(r, fs).deviceState == r.deviceState && SetAll(r, fs).initDone == r.initDone
  {
    hide Get32Be, Validate;
    if fs != [] {
      SetAllKeepsState(r, fs[..|fs| - 1]);
    }
  }

  // ---- The module state and its functions ----

  class Module {
    var deviceState: byte
    var factoryInitDone: bool
    var battery: byte
    var temperature: i16
    var distance: u16
    var position: byte
    var mode: byte
    var updateInterval: u16
    var installLat: i32
    var installLng: i32
    var gnssFix: byte
    var latitude: i32
    var longitude: i32
    var altitude: i16
    var unixtime: word

    function View(): Registry
      reads this
    {
      Registry(deviceState, factoryInitDone, battery, temperature, distance, position, mode, updateInterval,
               installLat, installLng, gnssFix, latitude, longitude, altitude)
    }

    /** The initialised statics. */
    constructor ()
      ensures View() == PowerUp() && unixtime == 0
    {
      deviceState, factoryInitDone := FACTORY, false;
      battery, temperature, distance, position := 100, 250, 15, 0x00;
      mode, updateInterval := 0x02, 0;
      installLat, installLng := 246_087_800, 1_180_689_300;
      gnssFix, latitude, longitude, altitude := 0x01, 246_087_800, 1_180_689_300, 15;
      unixtime := 0;
    }

    method AppFieldsInit()
      modifies this
      ensures View() == Reset(old(View())) && unixtime == old(unixtime)
    {
      deviceState, factoryInitDone := FACTORY, false;
      mode, updateInterval := 0x02, 0;
      SetLocation(246_087_800, 1_180_689_300, 15);
    }

    /** The installation location, and the position fields derived from it. */
    method SetLocation(lat: i32, lng: i32, alt: i16)
      modifies this
      ensures View() == old(View()).(installLat := lat, installLng := lng,
                                     gnssFix := 0x01, latitude := lat, longitude := lng, altitude := alt)
      ensures unixtime == old(unixtime)
    {
      installLat, installLng := lat, lng;
      gnssFix, latitude, longitude, altitude := 0x01, lat, lng, alt;
    }

    /** Writes the value of a field to `buf`; the number of bytes, 0 when there is no such field. */
    method AppFieldGet(id: byte, buf: array<byte>, max: byte) returns (n: byte)
      requires max as int <= buf.Length
      modifies buf
      ensures n <= max && buf[..n as int] == GetUpTo(View(), id, max as int)
    {
      hide Put32Be, Put16Be;
      if !IsReadable(id) {
        return 0;
      }
      var v: seq<byte>;
      if id == MODEL || id == SERIAL {
        v := if id == MODEL then MODEL_NAME else SERIAL_NUMBER;
        if |v| > max as int {
          v := v[..max as int];
        }
      } else {
        v := CurrentValue(id);
        if (max as int) < |v| {
          return 0;
        }
      }
      Copy(buf, 0, v);
      n := |v| as byte;
    }

    /** The fixed-length cases of app_field_get. */
    method CurrentValue(id: byte) returns (v: seq<byte>)
      requires IsReadable(id) && id != MODEL && id != SERIAL
      ensures v == Get(View(), id)
    {
      hide Put32Be, Put16Be;
      if id == DEVICE_STATE { v := [deviceState]; }
      else if id == DEVICE_TYPE { v := [0x01]; }
      else if id == FW_VER { v := [1, 0, 0]; }
      else if id == HW_VER { v := [1, 0, 0]; }
      else if id == PROTOCOL_VERSION { v := [0x20]; }
      else if id == BATTERY { v := [battery]; }
      else if id == TEMPERATURE { v := Put16Be(FromI16(temperature)); }
      else if id == DISTANCE { v := Put16Be(distance); }
      else if id == POSITION { v := [position]; }
      else if id == MODE { v := [mode]; }
      else if id == UPDATE_INTERVAL { v := Put16Be(updateInterval); }
      else if id == INSTALL_LOCATION { v := Put32Be(FromI32(installLat)) + Put32Be(FromI32(installLng)); }
      else if id == GNSS_FIX { v := [gnssFix]; }
      else if id == LATITUDE { v := Put32Be(FromI32(latitude)); }
      else if id == LONGITUDE { v := Put32Be(FromI32(longitude)); }
      else { v := Put16Be(FromI16(altitude)); }
    }

    method AppFieldSet(id: byte, value: seq<byte>)
      requires LongEnough(id, value)
      modifies this
      ensures View() == Set(old(View()), id, value) && unixtime == old(unixtime)
    {
      hide Get32Be, Get16Be;
      if id == MODE {
        mode := value[0];
      } else if id == UPDATE_INTERVAL {
        updateInterval := Get16Be(value[..2]);
      } else if id == INSTALL_LOCATION {
        SetLocation(ToI32(Get32Be(value[..4])), ToI32(Get32Be(value[4..8])), 0);
      }
    }

    method AppFieldMarkFactoryInitDone()
      modifies this
      ensures View() == MarkInitDone(old(View())) && unixtime == old(unixtime)
    {
      factoryInitDone := true;
      if deviceState == FACTORY {
        deviceState := POWER_ON;
      }
    }
  }
}
