/** Bytes, shared by the MQTT and Telnet modules. */
module Bytes {
  type byte = b: int | 0 <= b < 256
}
