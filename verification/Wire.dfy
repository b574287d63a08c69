/** Command, status and field codes of the V2.0 protocol (src/app_protocol.h). */
module Wire {
  import opened Bytes

  const CMD_READ: byte := 0x01
  const CMD_WRITE: byte := 0x02
  const CMD_AUTH: byte := 0x03
  const CMD_ACTION: byte := 0x04
  const CMD_OTA_START: byte := 0x10
  const CMD_OTA_DATA: byte := 0x11
  const CMD_OTA_END: byte := 0x12

  const OK: byte := 0x00
  const UNSUPPORTED: byte := 0x01
  const PARAM_LEN: byte := 0x05
  const PARAM_VALUE: byte := 0x06
  const OTA_STATE: byte := 0x09
  const AUTH_FAILED: byte := 0x0A
  const AUTH_REQUIRED: byte := 0x0B
  const AUTH_EXPIRED: byte := 0x0C
  const AUTH_STATE: byte := 0x0D
  const UNKNOWN: byte := 0xFF

  const DEVICE_STATE: byte := 0x01
  const DEVICE_TYPE: byte := 0x02
  const MODEL: byte := 0x03
  const SERIAL: byte := 0x04
  const FW_VER: byte := 0x05
  const HW_VER: byte := 0x06
  const PROTOCOL_VERSION: byte := 0x07
  const BATTERY: byte := 0x10
  const TEMPERATURE: byte := 0x11
  const DISTANCE: byte := 0x12
  const POSITION: byte := 0x13
  const MODE: byte := 0x20
  const UPDATE_INTERVAL: byte := 0x21
  const INSTALL_LOCATION: byte := 0x22
  const GNSS_FIX: byte := 0x23
  const LATITUDE: byte := 0x24
  const LONGITUDE: byte := 0x25
  const ALTITUDE: byte := 0x26

  const FACTORY: byte := 0x00
  const POWER_ON: byte := 0x01
  const POWER_OFF: byte := 0x02

  const SUBCMD_NONCE: byte := 0x01
  const SUBCMD_TOKEN: byte := 0x02
  const SUBCMD_CHANGE_PWD: byte := 0x03
  const SUBCMD_LOCK: byte := 0x04

  const LOCKED: byte := 0x00
  const UNLOCKED: byte := 0x01

  /** The two transports; the code tells them apart by the first letter of "BLE" and "NFC". */
  datatype Channel = BLE | NFC
}
