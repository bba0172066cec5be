/** The control session of one test: a client and a server that exchange state bytes, the
    cookie and JSON texts over two queues, while the client's streams connect. Every
    interleaving is a sequence of steps. */
module ControlProtocol {
  import opened Order

  datatype Mode = Sending | Receiving | Bidirectional

  datatype TestState =
    | IperfStart | ParamExchange | CreateStreams | TestStart | TestRunning | TestEnd
    | ExchangeResults | DisplayResults | IperfDone

  /** What travels on the control connection. */
  datatype Message = Cookie | Json | State(state: TestState)

  // ---- Streams ----

  datatype Stream = Stream(id: nat, sender: bool)

  /** A stream at the end of the list; the second one gets number 3. */
  function AddStream(streams: seq<Stream>, sender: bool): seq<Stream> {
    streams + [Stream(if streams == [] then 1 else 2 + |streams|, sender)]
  }

  /** The mode the server takes from the client's parameters. */
  function Mirrored(mode: Mode): Mode {
    match mode case Sending => Receiving case Receiving => Sending case Bidirectional => Bidirectional
  }

  function Total(mode: Mode, n: nat): nat { if mode == Bidirectional then 2 * n else n }

  // ---- The two programs ----

  /** Where the client is: about to connect, in its event loop, or inside the handling of a
      state byte. */
  datatype ClientAt =
    | CConnect | CLoop | CSendParams | CStreams | CSendResults | CReadResults | CSendDone | CFinished | CFailed

  datatype Client = Client(at: ClientAt, state: TestState, streams: seq<Stream>)

  /** Where the server is: waiting for a client, in its event loop, or inside the handling of
      a connection or a state byte. */
  datatype ServerAt =
    | SListen | SReadCookie | SSendParam | SReadParams | SSendCreate | SLoop | SSendStart | SSendRunning
    | SSendExchange | SReadResults | SSendResults | SSendDisplay | SFinished | SFailed

  datatype Server = Server(
    at: ServerAt, state: TestState, done: bool,
    toReceive: nat, toSend: nat, received: nat, sent: nat, streams: seq<Stream>)

  datatype Session = Session(
    mode: Mode, n: nat, client: Client, server: Server,
    toServer: seq<Message>, toClient: seq<Message>,
    /** Streams that have connected and were not yet accepted. */
    connections: nat,
    /** Other clients turned away. */
    denied: nat)

  function Initial(mode: Mode, n: nat): Session {
    Session(mode, n, Client(CConnect, IperfStart, []),
            Server(SListen, IperfStart, false, 0, 0, 0, 0, []), [], [], 0, 0)
  }

  datatype Step = ClientStep | EndTest | ServerStep | ServerAccept | Intruder

  // ---- The client ----

  function SendC(g: Session, m: Message): Session { g.(toServer := g.toServer + [m]) }

  /** Handling a state byte: the state is taken over, and decides what comes next. */
  function HandleClient(c: Client, m: Message): Client {
    if !m.State? then c.(at := CFailed)
    else
      var c1 := c.(state := m.state);
      match m.state
      case ParamExchange => c1.(at := CSendParams)
      case CreateStreams => c1.(at := CStreams)
      case TestStart => c1
      case TestRunning => c1
      case ExchangeResults => c1.(at := CSendResults)
      case DisplayResults => c1.(at := CSendDone)
      case IperfDone => c1.(at := CFinished)
      case _ => c1.(at := CFailed)
  }

  /** The sender flag of the next stream: in both directions, senders are made first. */
  function NextFlag(mode: Mode, n: nat, k: nat): bool {
    mode == Sending || (mode == Bidirectional && k < n)
  }

  predicate ClientEnabled(g: Session) {
    match g.client.at
    case CLoop => g.toClient != []
    case CReadResults => g.toClient != []
    case CFinished => false
    case CFailed => false
    case _ => true
  }

  function ClientMove(g: Session): Session
    requires ClientEnabled(g)
  {
    var c := g.client;
    match c.at
    case CConnect => SendC(g.(client := c.(at := CLoop)), Cookie)
    case CLoop => g.(client := HandleClient(c, g.toClient[0]), toClient := g.toClient[1..])
    case CSendParams => SendC(g.(client := c.(at := CLoop)), Json)
    case CStreams =>
      if |c.streams| < Total(g.mode, g.n)
      then g.(client := c.(streams := AddStream(c.streams, NextFlag(g.mode, g.n, |c.streams|))),
              connections := g.connections + 1)
      else g.(client := c.(at := CLoop))
    case CSendResults => SendC(g.(client := c.(at := CReadResults)), Json)
    case CReadResults =>
      g.(client := c.(at := if g.toClient[0].Json? then CLoop else CFailed), toClient := g.toClient[1..])
    case CSendDone => SendC(g.(client := c.(at := CFinished, state := IperfDone)), State(IperfDone))
    case _ => g
  }

  /** The client decides that the test is over. */
  predicate EndEnabled(g: Session) {
    g.client.at == CLoop && g.client.state == TestRunning
  }

  function EndMove(g: Session): Session {
    SendC(g.(client := g.client.(state := TestEnd)), State(TestEnd))
  }

  // ---- The server ----

  function SendS(g: Session, s: Server, m: Message): Session { g.(server := s, toClient := g.toClient + [m]) }

  /** The streams to accept in either direction, from the mirrored mode. */
  function Targets(s: Server, mode: Mode, n: nat): Server {
    match Mirrored(mode)
    case Bidirectional => s.(toReceive := n, toSend := n)
    case Receiving => s.(toReceive := n, toSend := 0)
    case Sending => s.(toReceive := 0, toSend := n)
  }

  function HandleServer(s: Server, m: Message): Server {
    if !m.State? then s.(at := SFailed)
    else
      var s1 := s.(state := m.state);
      match m.state
      case TestStart => s1
      case TestEnd => s1.(at := SSendExchange, done := true)
      case IperfDone => s1.(at := SFinished)
      case _ => s1.(at := SFailed)
  }

  predicate ServerEnabled(g: Session) {
    match g.server.at
    case SListen => g.client.at != CConnect
    case SReadCookie => g.toServer != []
    case SReadParams => g.toServer != []
    case SReadResults => g.toServer != []
    case SLoop => g.server.done || g.toServer != []
    case SFinished => false
    case SFailed => false
    case _ => true
  }

  function ServerMove(g: Session): Session
    requires ServerEnabled(g)
  {
    var s := g.server;
    match s.at
    case SListen => g.(server := s.(at := SReadCookie))
    case SReadCookie =>
      g.(server := s.(at := if g.toServer[0].Cookie? then SSendParam else SFailed), toServer := g.toServer[1..])
    case SSendParam => SendS(g, s.(at := SReadParams, state := ParamExchange), State(ParamExchange))
    case SReadParams =>
      g.(server := s.(at := if g.toServer[0].Json? then SSendCreate else SFailed), toServer := g.toServer[1..])
    case SSendCreate =>
      SendS(g, Targets(s.(at := SLoop, state := CreateStreams), g.mode, g.n), State(CreateStreams))
    case SLoop =>
      if s.done then g.(server := s.(at := SFinished))
      else g.(server := HandleServer(s, g.toServer[0]), toServer := g.toServer[1..])
    case SSendStart => SendS(g, s.(at := SSendRunning, state := TestStart), State(TestStart))
    case SSendRunning => SendS(g, s.(at := SLoop, state := TestRunning), State(TestRunning))
    case SSendExchange => SendS(g, s.(at := SReadResults, state := ExchangeResults), State(ExchangeResults))
    case SReadResults =>
      g.(server := s.(at := if g.toServer[0].Json? then SSendResults else SFailed), toServer := g.toServer[1..])
    case SSendResults => SendS(g, s.(at := SSendDisplay), Json)
    case SSendDisplay => SendS(g, s.(at := SLoop, state := DisplayResults), State(DisplayResults))
    case _ => g
  }

  predicate AcceptEnabled(g: Session) {
    g.server.at == SLoop && g.server.state == CreateStreams && g.connections > 0
  }

  /** Accepting a stream: receivers first, then senders; after the last one the test starts. */
  function AcceptMove(g: Session): Session
    requires AcceptEnabled(g)
  {
    var s := g.server;
    var s1 :=
      if s.received != s.toReceive then s.(received := s.received + 1, streams := AddStream(s.streams, false))
      else if s.sent != s.toSend then s.(sent := s.sent + 1, streams := AddStream(s.streams, true))
      else s;
    var s2 := if s1.received == s1.toReceive && s1.sent == s1.toSend then s1.(at := SSendStart) else s1;
    g.(server := s2, connections := g.connections - 1)
  }

  /** Another client connects while the server is in its loop outside `CreateStreams`. */
  predicate IntruderEnabled(g: Session) {
    g.server.at == SLoop && g.server.state != CreateStreams && !g.server.done
  }

  function IntruderMove(g: Session): Session {
    g.(server := Targets(g.server, g.mode, g.n), denied := g.denied + 1)
  }

  predicate Enabled(g: Session, step: Step) {
    match step
    case ClientStep => ClientEnabled(g)
    case EndTest => EndEnabled(g)
    case ServerStep => ServerEnabled(g)
    case ServerAccept => AcceptEnabled(g)
    case Intruder => IntruderEnabled(g)
  }

  function Apply(g: Session, step: Step): Session
    requires Enabled(g, step)
  {
    match step
    case ClientStep => ClientMove(g)
    case EndTest => EndMove(g)
    case ServerStep => ServerMove(g)
    case ServerAccept => AcceptMove(g)
    case Intruder => IntruderMove(g)
  }

  /** The steps can be taken one after another from `g`, and lead to `h`. */
  predicate Run(g: Session, steps: seq<Step>, h: Session)
    decreases |steps|
  {
    if steps == [] then g == h
    else Enabled(g, steps[0]) && Run(Apply(g, steps[0]), steps[1..], h)
  }

  // ---- What holds in every reachable state ----

  /** The k-th message the server sends in a session, and the k-th the client sends. */
  function ServerMessage(k: nat): Message {
    if k == 0 then State(ParamExchange) else if k == 1 then State(CreateStreams) else if k == 2 then State(TestStart)
    else if k == 3 then State(TestRunning) else if k == 4 then State(ExchangeResults) else if k == 5 then Json
    else State(DisplayResults)
  }

  function ClientMessage(k: nat): Message {
    if k == 0 then Cookie else if k == 1 then Json else if k == 2 then State(TestEnd) else if k == 3 then Json
    else State(IperfDone)
  }

  /** How many messages a side has taken and sent, or `Nowhere` for a place it never is. */
  datatype Count = Nowhere | Count(taken: nat, sent: nat)

  function ClientCount(c: Client): Count {
    match c.at
    case CConnect => if c.state == IperfStart then Count(0, 0) else Nowhere
    case CSendParams => if c.state == ParamExchange then Count(1, 1) else Nowhere
    case CStreams => if c.state == CreateStreams then Count(2, 2) else Nowhere
    case CSendResults => if c.state == ExchangeResults then Count(5, 3) else Nowhere
    case CReadResults => if c.state == ExchangeResults then Count(5, 4) else Nowhere
    case CSendDone => if c.state == DisplayResults then Count(7, 4) else Nowhere
    case CFinished => if c.state == IperfDone then Count(7, 5) else Nowhere
    case CFailed => Nowhere
    case CLoop =>
      match c.state
      case IperfStart => Count(0, 1)
      case ParamExchange => Count(1, 2)
      case CreateStreams => Count(2, 2)
      case TestStart => Count(3, 2)
      case TestRunning => Count(4, 2)
      case TestEnd => Count(4, 3)
      case ExchangeResults => Count(6, 4)
      case _ => Nowhere
  }

  function ServerCount(s: Server): Count {
    match s.at
    case SListen => if s.state == IperfStart then Count(0, 0) else Nowhere
    case SReadCookie => if s.state == IperfStart then Count(0, 0) else Nowhere
    case SSendParam => if s.state == IperfStart then Count(1, 0) else Nowhere
    case SReadParams => if s.state == ParamExchange then Count(1, 1) else Nowhere
    case SSendCreate => if s.state == ParamExchange then Count(2, 1) else Nowhere
    case SSendStart => if s.state == CreateStreams then Count(2, 2) else Nowhere
    case SSendRunning => if s.state == TestStart then Count(2, 3) else Nowhere
    case SSendExchange => if s.state == TestEnd then Count(3, 4) else Nowhere
    case SReadResults => if s.state == ExchangeResults then Count(3, 5) else Nowhere
    case SSendResults => if s.state == ExchangeResults then Count(4, 5) else Nowhere
    case SSendDisplay => if s.state == ExchangeResults then Count(4, 6) else Nowhere
    case SFinished => if s.state == DisplayResults then Count(4, 7) else Nowhere
    case SFailed => Nowhere
    case SLoop =>
      match s.state
      case CreateStreams => Count(2, 2)
      case TestRunning => Count(2, 4)
      case DisplayResults => Count(4, 7)
      case _ => Nowhere
  }

  /** A queue of the server's messages from the `taken`-th up to the `sent`-th. */
  predicate FromServer(q: seq<Message>, taken: nat, sent: nat) {
    taken + |q| == sent && forall k :: 0 <= k < |q| ==> q[k] == ServerMessage(taken + k)
  }

  predicate FromClient(q: seq<Message>, taken: nat, sent: nat) {
    taken + |q| == sent && forall k :: 0 <= k < |q| ==> q[k] == ClientMessage(taken + k)
  }

  /** The k-th stream of the session as the client has it; the server has it with the
      opposite role. */
  function StreamAt(mode: Mode, n: nat, k: nat, server: bool): Stream {
    Stream(if k == 0 then 1 else 2 + k, NextFlag(mode, n, k) != server)
  }

  predicate StreamsOk(mode: Mode, n: nat, streams: seq<Stream>, server: bool) {
    && |streams| <= Total(mode, n)
    && forall k :: 0 <= k < |streams| ==> streams[k] == StreamAt(mode, n, k, server)
  }

  predicate AllAccepted(mode: Mode, n: nat, s: Server) {
    |s.streams| == Total(mode, n)
  }

  /** The queues hold exactly what was sent and not yet taken. */
  predicate QueuesOk(g: Session) {
    var c := ClientCount(g.client);
    var s := ServerCount(g.server);
    && c.Count? && s.Count?
    && FromClient(g.toServer, s.taken, c.sent)
    && FromServer(g.toClient, c.taken, s.sent)
  }

  /** The client's streams at each of its places. */
  predicate ClientSide(mode: Mode, n: nat, client: Client) {
    var c := ClientCount(client);
    && c.Count? && StreamsOk(mode, n, client.streams, false)
    && (c.taken < 2 ==> client.streams == [])
    && (client.at == CLoop && 2 <= c.taken ==> |client.streams| == Total(mode, n))
    && (3 <= c.taken ==> |client.streams| == Total(mode, n))
  }

  /** The server's streams at each of its places. */
  predicate ServerSide(mode: Mode, n: nat, server: Server) {
    var s := ServerCount(server);
    && s.Count? && StreamsOk(mode, n, server.streams, true)
    && |server.streams| == server.received + server.sent
    && (s.sent < 2 ==> server.streams == [])
    && (2 <= s.sent ==>
          && server == Targets(server, mode, n)
          && server.received <= server.toReceive && server.sent <= server.toSend
          && (server.sent > 0 ==> server.received == server.toReceive))
    && (server.at == SSendStart || 3 <= s.sent ==> AllAccepted(mode, n, server))
    && (server.at == SLoop && server.state == CreateStreams ==> !AllAccepted(mode, n, server))
    && (server.done <==> 3 <= s.taken)
  }

  /** Both sides' stream lists and the connections between them. */
  predicate StreamsAgree(g: Session) {
    && ClientSide(g.mode, g.n, g.client) && ServerSide(g.mode, g.n, g.server)
    && |g.client.streams| == |g.server.streams| + g.connections
  }

  predicate Inv(g: Session) {
    1 <= g.n && QueuesOk(g) && StreamsAgree(g)
  }

  lemma InitialInv(mode: Mode, n: nat)
    requires 1 <= n
    ensures Inv(Initial(mode, n))
  {
  }

  /** Sending the next message, and taking the first one. */
  lemma ServerQueue(q: seq<Message>, taken: nat, sent: nat)
    requires FromServer(q, taken, sent)
    ensures FromServer(q + [ServerMessage(sent)], taken, sent + 1)
    ensures q != [] ==> q[0] == ServerMessage(taken) && FromServer(q[1..], taken + 1, sent)
    ensures taken <= sent && (q == [] <==> taken == sent)
  {
  }

  lemma ClientQueue(q: seq<Message>, taken: nat, sent: nat)
    requires FromClient(q, taken, sent)
    ensures FromClient(q + [ClientMessage(sent)], taken, sent + 1)
    ensures q != [] ==> q[0] == ClientMessage(taken) && FromClient(q[1..], taken + 1, sent)
    ensures taken <= sent && (q == [] <==> taken == sent)
  {
  }

  /** Both queues, as the next step of either side finds them. */
  lemma Queues(g: Session)
    requires QueuesOk(g)
    ensures var c, s := ClientCount(g.client), ServerCount(g.server);
            && FromServer(g.toClient + [ServerMessage(s.sent)], c.taken, s.sent + 1)
            && FromClient(g.toServer + [ClientMessage(c.sent)], s.taken, c.sent + 1)
            && c.taken <= s.sent && (g.toClient == [] <==> c.taken == s.sent)
            && s.taken <= c.sent && (g.toServer == [] <==> s.taken == c.sent)
            && (g.toClient != [] ==>
                  g.toClient[0] == ServerMessage(c.taken) && FromServer(g.toClient[1..], c.taken + 1, s.sent))
            && (g.toServer != [] ==>
                  g.toServer[0] == ClientMessage(s.taken) && FromClient(g.toServer[1..], s.taken + 1, c.sent))
  {
    hide FromServer, FromClient;
    var c, s := ClientCount(g.client), ServerCount(g.server);
    ServerQueue(g.toClient, c.taken, s.sent);
    ClientQueue(g.toServer, s.taken, c.sent);
  }

  /** What a side can have sent before it has taken enough. */
  lemma Pace(c: Client, s: Server)
    ensures ClientCount(c).Count? && 3 <= ClientCount(c).sent ==> 4 <= ClientCount(c).taken
    ensures ServerCount(s).Count? && 5 <= ServerCount(s).sent ==> 3 <= ServerCount(s).taken
  {
  }

  /** What a client in its loop reads next, if anything, moves it on. */
  predicate ClientReads(g: Session)
    requires ClientCount(g.client).Count?
  {
    var c := ClientCount(g.client);
    g.toClient != [] ==> g.toClient[0] == ServerMessage(c.taken) && c.taken <= 6 && (c.taken == 4 ==> c.sent == 3)
  }

  predicate ServerReads(g: Session)
    requires ServerCount(g.server).Count?
  {
    var s := ServerCount(g.server);
    && (g.toServer != [] ==> g.toServer[0] == ClientMessage(s.taken) && (s.taken == 2 ==> s.sent == 4))
    && (g.server.done <==> 3 <= s.taken)
  }

  lemma BothRead(g: Session)
    requires Inv(g)
    ensures ClientReads(g) && ServerReads(g)
  {
    hide FromServer, FromClient, StreamsOk;
    Queues(g);
    Pace(g.client, g.server);
    Reach(g.server);
  }

  lemma Reach(s: Server)
    ensures ServerCount(s).Count? ==> ServerCount(s).sent <= 7
  {
  }

  /** The client's move takes one message, sends one, or does neither. */
  lemma ClientTurn(g: Session)
    requires ClientCount(g.client).Count? && ClientReads(g) && ClientEnabled(g)
    ensures var h := ClientMove(g);
            var c, d := ClientCount(g.client), ClientCount(h.client);
            && d.Count? && h.server == g.server
            && (|| (d == c && h.toServer == g.toServer && h.toClient == g.toClient)
                || (d == c.(sent := c.sent + 1) && h.toServer == g.toServer + [ClientMessage(c.sent)]
                    && h.toClient == g.toClient)
                || (d == c.(taken := c.taken + 1) && g.toClient != [] && h.toClient == g.toClient[1..]
                    && h.toServer == g.toServer))
  {
  }

  lemma ServerTurn(g: Session)
    requires ServerCount(g.server).Count? && ServerReads(g) && ServerEnabled(g)
    ensures var h := ServerMove(g);
            var s, d := ServerCount(g.server), ServerCount(h.server);
            && d.Count? && h.client == g.client && h.connections == g.connections
            && (|| (d == s && h.toServer == g.toServer && h.toClient == g.toClient)
                || (d == s.(sent := s.sent + 1) && h.toClient == g.toClient + [ServerMessage(s.sent)]
                    && h.toServer == g.toServer)
                || (d == s.(taken := s.taken + 1) && g.toServer != [] && h.toServer == g.toServer[1..]
                    && h.toClient == g.toClient))
  {
  }

  lemma ClientKeepsQueues(g: Session)
    requires Inv(g) && ClientEnabled(g)
    ensures QueuesOk(ClientMove(g))
  {
    hide FromServer, FromClient, ClientMove, ClientCount, ServerCount, StreamsAgree;
    BothRead(g);
    ClientTurn(g);
    Queues(g);
  }

  lemma ServerKeepsQueues(g: Session)
    requires Inv(g) && ServerEnabled(g)
    ensures QueuesOk(ServerMove(g))
  {
    hide FromServer, FromClient, ServerMove, ClientCount, ServerCount, StreamsAgree;
    BothRead(g);
    ServerTurn(g);
    Queues(g);
  }

  lemma ClientKeepsSide(g: Session)
    requires ClientSide(g.mode, g.n, g.client) && ClientReads(g) && ClientEnabled(g)
    ensures var h := ClientMove(g);
            && ClientSide(h.mode, h.n, h.client) && h.server == g.server && h.mode == g.mode && h.n == g.n
            && |h.client.streams| == |g.client.streams| + h.connections - g.connections
  {
    if g.client.at == CStreams && |g.client.streams| < Total(g.mode, g.n) {
      hide ClientCount;
    } else {
      hide StreamsOk;
    }
  }

  lemma ServerKeepsSide(g: Session)
    requires 1 <= g.n && ServerSide(g.mode, g.n, g.server) && ServerReads(g) && ServerEnabled(g)
    ensures var h := ServerMove(g);
            && ServerSide(h.mode, h.n, h.server) && h.client == g.client && h.mode == g.mode && h.n == g.n
            && |h.server.streams| == |g.server.streams| && h.connections == g.connections
  {
    hide StreamsOk;
  }

  lemma ClientKeepsStreams(g: Session)
    requires Inv(g) && ClientEnabled(g)
    ensures StreamsAgree(ClientMove(g))
  {
    hide ClientMove, ClientSide, ServerSide, QueuesOk;
    BothRead(g);
    ClientKeepsSide(g);
  }

  lemma ServerKeepsStreams(g: Session)
    requires Inv(g) && ServerEnabled(g)
    ensures StreamsAgree(ServerMove(g))
  {
    hide ServerMove, ClientSide, ServerSide, QueuesOk;
    BothRead(g);
    ServerKeepsSide(g);
  }

  lemma AcceptKeeps(g: Session)
    requires Inv(g) && AcceptEnabled(g)
    ensures Inv(AcceptMove(g))
  {
    hide FromClient, FromServer;
  }

  lemma EndKeeps(g: Session)
    requires Inv(g) && EndEnabled(g)
    ensures Inv(EndMove(g))
  {
    hide StreamsOk;
  }

  /** A second control connection outside `CreateStreams` changes nothing of the session. */
  lemma IntruderChangesNothing(g: Session)
    requires Inv(g) && IntruderEnabled(g)
    ensures IntruderMove(g) == g.(denied := g.denied + 1) && Inv(IntruderMove(g))
  {
    hide FromClient, FromServer, StreamsOk;
  }

  /** Every step keeps the invariant. */
  lemma StepKeeps(g: Session, step: Step)
    requires Inv(g) && Enabled(g, step)
    ensures Inv(Apply(g, step))
  {
    hide QueuesOk, StreamsAgree, ClientMove, ServerMove, AcceptMove, EndMove, IntruderMove;
    match step {
      case ClientStep =>
        ClientKeepsQueues(g);
        ClientKeepsStreams(g);
        SameSession(g, step);
      case ServerStep =>
        ServerKeepsQueues(g);
        ServerKeepsStreams(g);
        SameSession(g, step);
      case ServerAccept => AcceptKeeps(g);
      case EndTest => EndKeeps(g);
      case Intruder => IntruderChangesNothing(g);
    }
  }

  lemma SameSession(g: Session, step: Step)
    requires Enabled(g, step)
    ensures Apply(g, step).n == g.n && Apply(g, step).mode == g.mode
  {
  }

  // ---- Whole runs ----

  lemma {:induction false} RunKeeps(g: Session, steps: seq<Step>, h: Session)
    requires Inv(g) && Run(g, steps, h)
    ensures Inv(h) && h.mode == g.mode && h.n == g.n
    decreases |steps|
  {
    hide Inv, Apply, Enabled;
    if steps != [] {
      StepKeeps(g, steps[0]);
      SameSession(g, steps[0]);
      RunKeeps(Apply(g, steps[0]), steps[1..], h);
    }
  }

  /** The message a side is about to read, if it has one, is of the kind it reads there. */
  predicate ReadsExpected(g: Session) {
    && (g.toClient != [] ==>
          (g.client.at == CLoop ==> g.toClient[0].State?) && (g.client.at == CReadResults ==> g.toClient[0].Json?))
    && (g.toServer != [] ==>
          && (g.server.at == SLoop && !g.server.done ==> g.toServer[0].State?)
          && (g.server.at == SReadCookie ==> g.toServer[0].Cookie?)
          && (g.server.at == SReadParams || g.server.at == SReadResults ==> g.toServer[0].Json?))
  }

  /** Safety of every run: each read meets the kind of message it expects, neither side ever
      fails, and the client runs the test only after the server accepted every stream. */
  lemma EveryRunIsSafe(mode: Mode, n: nat, steps: seq<Step>, g: Session)
    requires 1 <= n && Run(Initial(mode, n), steps, g)
    ensures ReadsExpected(g) && g.client.at != CFailed && g.server.at != SFailed
    ensures g.client.state == TestRunning ==> |g.server.streams| == |g.client.streams| == Total(mode, n)
  {
    hide StreamsOk, Run;
    InitialInv(mode, n);
    RunKeeps(Initial(mode, n), steps, g);
  }

  /** Both sides have ended. */
  predicate Ended(g: Session) {
    g.client.at == CFinished && g.server.at == SFinished
  }

  /** The pair is never stuck: until both have ended, one of them can move. */
  lemma NeverStuck(g: Session)
    requires Inv(g) && !Ended(g)
    ensures ClientEnabled(g) || EndEnabled(g) || ServerEnabled(g) || AcceptEnabled(g)
  {
    hide StreamsOk;
  }

  /** When both have ended the client is in `IperfDone`, but the server is in
      `DisplayResults`: it leaves its loop once it is done and never reads the client's last
      state byte, which stays on the connection. */
  lemma EndedStates(g: Session)
    requires Inv(g) && Ended(g)
    ensures g.client.state == IperfDone && g.server.state == DisplayResults
    ensures g.toServer == [State(IperfDone)] && g.toClient == [] && g.connections == 0
  {
    hide StreamsOk;
    assert |g.toServer| == 1 && g.toServer[0] == ClientMessage(4);
  }

  /** What is left to do: client and server moves still to come. */
  function Remaining(g: Session): nat {
    ClientLeft(g) + ServerLeft(g.server) + 2 * (Total(g.mode, g.n) - Min(|g.client.streams|, Total(g.mode, g.n)))
    + g.connections
  }

  function ClientLeft(g: Session): nat {
    match g.client.at
    case CConnect => 13
    case CSendParams => 11
    case CStreams => 9
    case CSendResults => 4
    case CReadResults => 3
    case CSendDone => 1
    case CFinished => 0
    case CFailed => 0
    case CLoop =>
      match g.client.state
      case IperfStart => 12 case ParamExchange => 10 case CreateStreams => 8 case TestStart => 7
      case TestRunning => 6 case TestEnd => 5 case ExchangeResults => 2 case _ => 0
  }

  function ServerLeft(s: Server): nat {
    match s.at
    case SListen => 14 case SReadCookie => 13 case SSendParam => 12 case SReadParams => 11 case SSendCreate => 10
    case SSendStart => 8 case SSendRunning => 7 case SSendExchange => 5 case SReadResults => 4
    case SSendResults => 3 case SSendDisplay => 2 case SFinished => 0 case SFailed => 0
    case SLoop =>
      match s.state
      case CreateStreams => 9 case TestRunning => 6 case DisplayResults => 1 case _ => 0
  }

  lemma ClientProgress(g: Session)
    requires Inv(g) && ClientEnabled(g)
    ensures Remaining(ClientMove(g)) < Remaining(g)
  {
    hide StreamsOk, QueuesOk, ServerSide, ServerLeft, ServerCount;
    BothRead(g);
    if g.client.at == CLoop { ReadsOn(g); }
  }

  lemma ReadsOn(g: Session)
    requires ClientCount(g.client).Count? && ClientReads(g) && ClientEnabled(g) && g.client.at == CLoop
    ensures var h := ClientMove(g);
            && ClientLeft(h) < ClientLeft(g) && h.server == g.server && h.client.streams == g.client.streams
            && h.connections == g.connections && h.mode == g.mode && h.n == g.n
  {
  }

  lemma ServerProgress(g: Session)
    requires Inv(g) && ServerEnabled(g)
    ensures Remaining(ServerMove(g)) < Remaining(g)
  {
    hide Inv, ServerMove, ClientLeft, ServerLeft;
    BothRead(g);
    HasCount(g);
    SameClient(g);
    ServerLeaves(g);
  }

  lemma HasCount(g: Session)
    requires Inv(g)
    ensures ServerCount(g.server).Count?
  {
    hide StreamsAgree;
  }

  /** The server's move leaves it less to do. */
  lemma ServerLeaves(g: Session)
    requires ServerCount(g.server).Count? && ServerReads(g) && ServerEnabled(g)
    ensures ServerLeft(ServerMove(g).server) < ServerLeft(g.server)
    ensures ServerMove(g).mode == g.mode && ServerMove(g).n == g.n
  {
  }

  lemma SameClient(g: Session)
    requires ServerEnabled(g)
    ensures var h := ServerMove(g);
            ClientLeft(h) == ClientLeft(g) && h.client == g.client && h.connections == g.connections
  {
  }

  lemma AcceptProgress(g: Session)
    requires Inv(g) && AcceptEnabled(g)
    ensures Remaining(AcceptMove(g)) < Remaining(g)
  {
    hide StreamsOk, FromClient, FromServer;
  }

  /** Every step but a denied intruder brings the session nearer to its end. */
  lemma StepProgress(g: Session, step: Step)
    requires Inv(g) && Enabled(g, step)
    ensures step == Intruder ==> Remaining(Apply(g, step)) == Remaining(g)
    ensures step != Intruder ==> Remaining(Apply(g, step)) < Remaining(g)
  {
    hide Inv, ClientMove, ServerMove, AcceptMove;
    match step {
      case ClientStep => ClientProgress(g);
      case ServerStep => ServerProgress(g);
      case ServerAccept => AcceptProgress(g);
      case EndTest =>
      case Intruder => IntruderChangesNothing(g);
    }
  }

  /** Steps of the two sides, intruders not counted. */
  function Moves(steps: seq<Step>): nat {
    if steps == [] then 0 else (if steps[0] == Intruder then 0 else 1) + Moves(steps[1..])
  }

  /** No run can go on forever, whatever the interleaving. */
  lemma {:induction false} RunsAreBounded(g: Session, steps: seq<Step>, h: Session)
    requires Inv(g) && Run(g, steps, h)
    ensures Moves(steps) + Remaining(h) <= Remaining(g)
    decreases |steps|
  {
    hide Inv, Apply, Enabled, Remaining;
    if steps != [] {
      StepProgress(g, steps[0]);
      StepKeeps(g, steps[0]);
      RunsAreBounded(Apply(g, steps[0]), steps[1..], h);
    }
  }

  function Available(g: Session): Step {
    if ClientEnabled(g) then ClientStep else if EndEnabled(g) then EndTest
    else if ServerEnabled(g) then ServerStep else ServerAccept
  }

  /** From every reachable state the session can be completed. */
  lemma {:induction false} CanComplete(g: Session) returns (steps: seq<Step>, h: Session)
    requires Inv(g)
    ensures Run(g, steps, h) && Ended(h) && Inv(h)
    decreases Remaining(g)
  {
    hide Inv, Apply, Remaining;
    if Ended(g) { return [], g; }
    NeverStuck(g);
    var step := Available(g);
    StepKeeps(g, step);
    StepProgress(g, step);
    var rest;
    rest, h := CanComplete(Apply(g, step));
    steps := [step] + rest;
    assert steps[1..] == rest;
  }

  /** The two sides are never both in `IperfDone`: the server reaches it in no run. */
  lemma ServerNeverDone(mode: Mode, n: nat, steps: seq<Step>, g: Session)
    requires 1 <= n && Run(Initial(mode, n), steps, g)
    ensures g.server.state != IperfDone
  {
    hide StreamsOk, Run;
    InitialInv(mode, n);
    RunKeeps(Initial(mode, n), steps, g);
  }

  // ---- Stream pairing ----

  /** The first stream of that number, as a result record finds it, or the list's length. */
  function FindStream(streams: seq<Stream>, id: nat): (k: nat)
    ensures k <= |streams|
  {
    if streams == [] || streams[0].id == id then 0 else 1 + FindStream(streams[1..], id)
  }

  lemma {:induction false} FindsUnique(streams: seq<Stream>, k: nat)
    requires k < |streams| && forall i, j :: 0 <= i < j < |streams| ==> streams[i].id != streams[j].id
    ensures FindStream(streams, streams[k].id) == k
  {
    if k > 0 {
      assert streams[k] == streams[1..][k - 1];
      FindsUnique(streams[1..], k - 1);
    }
  }

  /** States of the session before the test starts. */
  predicate Before(state: TestState) {
    state == IperfStart || state == ParamExchange || state == CreateStreams
  }

  /** From the moment either side has the test start on, up to the end of the session and
      for every mode and stream count, the k-th streams of both sides have the same number
      and opposite roles: all of a sending client's streams send, none of a receiving one's
      does, and in both directions exactly its first `n` do. So where either side reads the
      other's results, the record of each stream finds exactly its counterpart. */
  lemma StreamsArePaired(mode: Mode, n: nat, steps: seq<Step>, g: Session, k: nat)
    requires 1 <= n && Run(Initial(mode, n), steps, g) && k < Total(mode, n)
    requires !Before(g.client.state) || !Before(g.server.state)
    ensures |g.client.streams| == |g.server.streams| == Total(mode, n)
    ensures g.client.streams[k].id == g.server.streams[k].id
    ensures g.client.streams[k].id == if k == 0 then 1 else k + 2
    ensures g.client.streams[k].sender == !g.server.streams[k].sender
    ensures mode == Sending ==> g.client.streams[k].sender
    ensures mode == Receiving ==> !g.client.streams[k].sender
    ensures mode == Bidirectional ==> (g.client.streams[k].sender <==> k < n)
    ensures |g.client.streams| == if mode == Bidirectional then n + n else n
    ensures FindStream(g.client.streams, g.server.streams[k].id) == k
    ensures FindStream(g.server.streams, g.client.streams[k].id) == k
  {
    hide Run, Inv, StreamsOk;
    InitialInv(mode, n);
    RunKeeps(Initial(mode, n), steps, g);
    AllStreams(g);
    StreamIs(mode, n, g.client.streams, false, k);
    StreamIs(mode, n, g.server.streams, true, k);
    FindsUnique(g.client.streams, k);
    FindsUnique(g.server.streams, k);
  }

  /** Once the test has started, both sides have all their streams. */
  lemma AllStreams(g: Session)
    requires Inv(g) && (!Before(g.client.state) || !Before(g.server.state))
    ensures |g.client.streams| == |g.server.streams| == Total(g.mode, g.n)
    ensures StreamsOk(g.mode, g.n, g.client.streams, false) && StreamsOk(g.mode, g.n, g.server.streams, true)
  {
    hide StreamsOk, FromClient, FromServer;
    Queues(g);
    assert 3 <= ServerCount(g.server).sent;
    AtMostAll(g.mode, g.n, g.client.streams);
  }

  lemma AtMostAll(mode: Mode, n: nat, streams: seq<Stream>)
    requires StreamsOk(mode, n, streams, false)
    ensures |streams| <= Total(mode, n)
  {
  }

  /** What the k-th stream is, from the mode alone. */
  lemma StreamIs(mode: Mode, n: nat, streams: seq<Stream>, server: bool, k: nat)
    requires StreamsOk(mode, n, streams, server) && k < |streams|
    ensures streams[k].id == if k == 0 then 1 else k + 2
    ensures mode == Sending ==> streams[k].sender == !server
    ensures mode == Receiving ==> streams[k].sender == server
    ensures mode == Bidirectional ==> streams[k].sender == ((k < n) != server)
    ensures forall i, j :: 0 <= i < j < |streams| ==> streams[i].id != streams[j].id
  {
  }

  /** Where either side reads results, the test has started. */
  lemma ReadersArePaired(mode: Mode, n: nat, steps: seq<Step>, g: Session, k: nat)
    requires 1 <= n && Run(Initial(mode, n), steps, g) && k < Total(mode, n)
    requires g.client.at == CReadResults || g.server.at == SReadResults
    ensures |g.client.streams| == |g.server.streams| == Total(mode, n)
    ensures FindStream(g.client.streams, g.server.streams[k].id) == k
    ensures FindStream(g.server.streams, g.client.streams[k].id) == k
  {
    hide Run, FromClient;
    InitialInv(mode, n);
    RunKeeps(Initial(mode, n), steps, g);
    StreamsArePaired(mode, n, steps, g, k);
  }

  // ---- The order of the states ----

  const STATES: seq<TestState> :=
    [IperfStart, ParamExchange, CreateStreams, TestStart, TestRunning, TestEnd, ExchangeResults, DisplayResults,
     IperfDone]

  /** How far a session in that state has come. */
  function Phase(state: TestState): (p: nat)
    ensures p < |STATES| && STATES[p] == state
  {
    match state
    case IperfStart => 0 case ParamExchange => 1 case CreateStreams => 2 case TestStart => 3 case TestRunning => 4
    case TestEnd => 5 case ExchangeResults => 6 case DisplayResults => 7 case IperfDone => 8
  }

  /** No step takes a side back or past a state: each goes through the states one by one. */
  lemma StatesInOrder(g: Session, step: Step)
    requires Inv(g) && Enabled(g, step)
    ensures var h := Apply(g, step);
            && Phase(g.client.state) <= Phase(h.client.state) <= Phase(g.client.state) + 1
            && Phase(g.server.state) <= Phase(h.server.state) <= Phase(g.server.state) + 1
  {
    hide QueuesOk, StreamsOk, STATES;
    BothRead(g);
    match step {
      case ClientStep => ClientInOrder(g);
      case ServerStep => ServerInOrder(g);
      case _ =>
    }
  }

  lemma ClientInOrder(g: Session)
    requires ClientCount(g.client).Count? && ClientReads(g) && ClientEnabled(g)
    ensures var h := ClientMove(g);
            && h.server == g.server
            && Phase(g.client.state) <= Phase(h.client.state) <= Phase(g.client.state) + 1
  {
    hide STATES;
  }

  lemma ServerInOrder(g: Session)
    requires ServerCount(g.server).Count? && ServerReads(g) && ServerEnabled(g)
    ensures var h := ServerMove(g);
            && h.client == g.client
            && Phase(g.server.state) <= Phase(h.server.state) <= Phase(g.server.state) + 1
  {
    hide STATES;
  }

  /** In every run the client is at most one state ahead of the server, at the end of the test
      and of the session, and the server at most two ahead of the client. */
  lemma StatesKeepPace(mode: Mode, n: nat, steps: seq<Step>, g: Session)
    requires 1 <= n && Run(Initial(mode, n), steps, g)
    ensures var c, s := Phase(g.client.state), Phase(g.server.state);
            && c <= s + 1 && s <= c + 2
            && (c == s + 1 ==> g.client.state == TestEnd || g.client.state == IperfDone)
  {
    hide Run, StreamsOk, FromClient, FromServer, STATES;
    InitialInv(mode, n);
    RunKeeps(Initial(mode, n), steps, g);
    Queues(g);
  }
}
