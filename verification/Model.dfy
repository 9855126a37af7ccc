/** The daemon's data model: the desired state and the convergence status. Timestamps are left out. */
module Model {
  import opened Base

  datatype Listen = Listen(port: U16, ssl: bool, http2: Option<bool>, defaultServer: Option<bool>)

  datatype Tls = Tls(certificate: string, certificateKey: string)

  datatype RouteAction =
    | ProxyPass(target: string)
    | Static(root: string, index: Option<string>)
    | Redirect(url: string, code: U16)

  datatype Header = Header(name: string, value: string)

  datatype RateLimit = RateLimit(zone: string, rate: string, burst: Option<nat>, nodelay: Option<bool>)

  datatype Route = Route(
    id: string,
    path: string,
    matchType: Option<string>,
    action: RouteAction,
    headers: Option<seq<Header>>,
    rateLimit: Option<RateLimit>,
    enabled: bool)

  datatype Server = Server(
    id: string,
    serverName: string,
    listen: seq<Listen>,
    routes: seq<Route>,
    tls: Option<Tls>,
    extraDirectives: Option<seq<string>>,
    enabled: bool)

  datatype ControlPlaneState = ControlPlaneState(
    schemaVersion: string,
    revision: U64,
    updatedBy: string,
    servers: seq<Server>)

  const INITIAL_STATE := ControlPlaneState("1.0.0", 0, "bootstrap", [])

  datatype SyncState = InSync | PendingApply | Applying | OutOfSync | Degraded

  datatype RuntimeStatus = RuntimeStatus(
    desiredRevision: U64,
    observedRevision: U64,
    syncState: SyncState,
    activeConfigHash: Option<string>,
    lastError: Option<string>)
}
