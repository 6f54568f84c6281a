/**
 The panel's records, as parsed from JSON or read from the database.
 */
module PanelModel {
  import opened Options

  /** A client object inside an inbound's settings.  `enable` is None if it is missing or not a boolean. */
  datatype Client = Client(id: string, password: string, email: string, flow: string,
                           enable: Option<bool>, total: int, expiry: int, reset: int)

  /** A row of client_traffics. */
  datatype Row = Row(inboundId: int, enable: bool, email: string, up: int, down: int, expiry: int, total: int,
    reset: int)

  /** A row of inbounds, its settings parsed. */
  datatype Inbound = Inbound(id: int, up: int, down: int, total: int, enable: bool, expiry: int,
                             listen: string, port: int, protocol: string, tag: string, clients: seq<Client>)
}
