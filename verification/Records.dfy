/** Scan results and the stored rows built from them (app/modules/discovery/parser.py, app/models). */
module Records {
  import opened Wrappers

  /** The parser stores a text or nothing, never an empty text. */
  type Text = s: string | s != "" witness "?"

  type PortNumber = p: nat | 1 <= p <= 65535 witness 1

  datatype Protocol = Tcp | Udp
  datatype PortState = Open | Filtered | Closed
  datatype Status = Online | Offline | Unknown | Warning

  datatype PortKey = PortKey(port: PortNumber, protocol: Protocol)

  datatype ParsedPort = ParsedPort(key: PortKey, state: PortState, service: Option<Text>)

  datatype ParsedHost = ParsedHost(
    ip: string, mac: Option<Text>, vendor: Option<Text>, hostname: Option<Text>, isUp: bool, ports: seq<ParsedPort>)

  /** A host and the two clock readings that merging it takes. */
  datatype Sighting = Sighting(host: ParsedHost, seenAt: int, portsAt: int)

  datatype DeviceRow = DeviceRow(
    id: nat, name: Option<Text>, hostname: Option<Text>, ip: string, mac: Option<Text>, vendor: Option<Text>,
    deviceType: Option<Text>, notes: Option<Text>, status: Status, firstSeen: int, lastSeen: int,
    isDeleted: bool, deletedAt: Option<int>)

  datatype PortRow = PortRow(deviceId: nat, key: PortKey, state: PortState, service: Option<Text>, lastSeen: int)

  /** One element of an observation's JSON port list. */
  datatype PortEntry = PortEntry(key: PortKey, service: Option<string>)

  datatype Observation = Observation(
    runId: nat, deviceId: Option<nat>, present: bool, ip: string, mac: Option<string>, hostname: Option<string>,
    vendor: Option<string>, ports: Option<seq<PortEntry>>, observedAt: int)
}
