/**
 The handshake that opens an encrypted channel between two processes, as two ends that move in any
 interleaving over a pair of ordered pipes. The cryptography is a parameter.
 */
module IpcHandshake {
  import opened Prelude

  const KEY_BYTES := 32
  const MAC_BYTES := 32
  const HEADER_BYTES := 24

  datatype Role = Server | Client

  function RoleByte(role: Role): byte {
    if role.Server? then 1 else 2
  }

  function Opposite(role: Role): Role {
    if role.Server? then Client else Server
  }

  /** Receive and transmit keys. */
  datatype Session = Session(rx: Bytes, tx: Bytes)

  /** The library calls: authentication tag, session keys (which may fail), and stream opening. */
  datatype Crypto = Crypto(
    mac: (Bytes, Bytes) -> Bytes,
    kx: (Role, Bytes, Bytes, Bytes) -> Option<Session>,
    initPull: (Bytes, Bytes) -> bool)

  /** What one end brings: its role, the shared authentication key, its key pair and its stream header. */
  datatype Party = Party(role: Role, auth: Bytes, pk: Bytes, sk: Bytes, header: Bytes)

  datatype Phase = SendKey | RecvKey | SendMac | RecvMac | SendHeader | RecvHeader | Done | Failed

  /** One end's progress. The pipe out of it holds what it has sent beyond what its peer has got. */
  datatype End = End(phase: Phase, sent: Bytes, got: Bytes, session: Option<Session>)

  const START := End(SendKey, [], [], None)

  function PeerKey(e: End): Bytes {
    if |e.got| >= KEY_BYTES then e.got[..KEY_BYTES] else []
  }

  function PeerHeader(e: End): Bytes {
    if |e.got| >= KEY_BYTES + MAC_BYTES then e.got[KEY_BYTES + MAC_BYTES..] else []
  }

  /** What a tag covers: the sender's role, its own public key, then the key it received. */
  function Transcript(role: Role, own: Bytes, other: Bytes): Bytes {
    [RoleByte(role)] + own + other
  }

  function OwnMac(p: Party, e: End, c: Crypto): Bytes {
    c.mac(p.auth, Transcript(p.role, p.pk, PeerKey(e)))
  }

  function ExpectedMac(p: Party, e: End, c: Crypto): Bytes {
    c.mac(p.auth, Transcript(Opposite(p.role), PeerKey(e), p.pk))
  }

  datatype Arrival = Waiting | Closed | Arrived(data: Bytes)

  /** The next `n` bytes of the pipe, if they are there; a failed peer has closed it. */
  function Receive(e: End, peer: End, n: nat): Arrival {
    if |peer.sent| >= |e.got| + n then Arrived(peer.sent[|e.got|..|e.got| + n])
    else if peer.phase.Failed? then Closed
    else Waiting
  }

  /** Opens the incoming stream on the peer's header. */
  function Finish(e: End, c: Crypto): End {
    if e.session.Some? && c.initPull(PeerHeader(e), e.session.value.rx) then e.(phase := Done) else e.(phase := Failed)
  }

  function CheckMac(p: Party, e: End, mac: Bytes, c: Crypto): End {
    var e' := e.(got := e.got + mac);
    if mac != ExpectedMac(p, e, c) then e'.(phase := Failed)
    else
      match c.kx(p.role, p.pk, p.sk, PeerKey(e))
      case None => e'.(phase := Failed)
      case Some(session) =>
        e'.(session := Some(session), phase := if p.role.Server? then SendHeader else RecvHeader)
  }

  function AwaitedBytes(phase: Phase): nat {
    match phase
    case RecvKey => KEY_BYTES
    case RecvMac => MAC_BYTES
    case RecvHeader => HEADER_BYTES
    case _ => 0
  }

  predicate Receiving(phase: Phase) {
    phase.RecvKey? || phase.RecvMac? || phase.RecvHeader?
  }

  function Accept(p: Party, e: End, data: Bytes, c: Crypto): End
    requires Receiving(e.phase)
  {
    match e.phase
    case RecvKey => e.(got := e.got + data, phase := SendMac)
    case RecvMac => CheckMac(p, e, data, c)
    case RecvHeader =>
      var e' := e.(got := e.got + data);
      if p.role.Server? then Finish(e', c) else e'.(phase := SendHeader)
  }

  function Send(p: Party, e: End, c: Crypto): End
    requires e.phase.SendKey? || e.phase.SendMac? || e.phase.SendHeader?
  {
    match e.phase
    case SendKey => e.(sent := e.sent + p.pk, phase := RecvKey)
    case SendMac => e.(sent := e.sent + OwnMac(p, e, c), phase := RecvMac)
    case SendHeader =>
      var e' := e.(sent := e.sent + p.header);
      if p.role.Server? then e'.(phase := RecvHeader) else Finish(e', c)
  }

  predicate Terminal(phase: Phase) {
    phase.Done? || phase.Failed?
  }

  /** One step of an end; None when it has to wait or has nothing left to do. */
  function Step(p: Party, e: End, peer: End, c: Crypto): Option<End> {
    if Terminal(e.phase) then None
    else if Receiving(e.phase) then
      match Receive(e, peer, AwaitedBytes(e.phase))
      case Waiting => None
      case Closed => Some(e.(phase := Failed))
      case Arrived(data) => Some(Accept(p, e, data, c))
    else Some(Send(p, e, c))
  }

  // ---------------------------------------------------------------- what the library promises

  predicate WellSized(p: Party) {
    |p.pk| == 32 && |p.header| == 24
  }

  ghost predicate TagSized(c: Crypto) {
    forall k, m :: |c.mac(k, m)| == 32
  }

  /** The tag q sends, over its role byte and both public keys, is the one p expects of a peer in the other role. */
  predicate TagsAgree(p: Party, q: Party, c: Crypto) {
    c.mac(q.auth, [if q.role.Server? then 1 else 2] + q.pk + p.pk)
    == c.mac(p.auth, [if p.role.Server? then 2 else 1] + q.pk + p.pk)
  }

  /** The messages a tag of this handshake can cover: 1 for a server, 2 for a client, then the two public keys. */
  function Messages(p: Party, q: Party): seq<Bytes> {
    [[1] + q.pk + p.pk, [2] + q.pk + p.pk, [1] + p.pk + q.pk, [2] + p.pk + q.pk]
  }

  /** Among these messages and the two authentication keys, equal tags mean the same key and the same message. */
  ghost predicate Unforged(p: Party, q: Party, c: Crypto) {
    forall k, m, l, n :: k in [p.auth, q.auth] && l in [p.auth, q.auth] && m in Messages(p, q) && n in Messages(p, q) ==>
      c.mac(k, m) == c.mac(l, n) ==> k == l && m == n
  }

  lemma RolesDiffer(a: byte, b: byte, x: Bytes, y: Bytes)
    requires [a] + x + y == [b] + x + y
    ensures a == b
  {
    assert ([a] + x + y)[0] == a && ([b] + x + y)[0] == b;
  }

  /** Tags of these messages agree only in different roles and under one authentication key. */
  lemma AgreementMeansMatched(p: Party, q: Party, c: Crypto)
    requires Unforged(p, q, c) && TagsAgree(p, q, c)
    ensures p.role != q.role && p.auth == q.auth
  {
    var own: byte := if q.role.Server? then 1 else 2;
    var expected: byte := if p.role.Server? then 2 else 1;
    var m, n := [own] + q.pk + p.pk, [expected] + q.pk + p.pk;
    assert m in Messages(p, q) && n in Messages(p, q) && p.auth in [p.auth, q.auth] && q.auth in [p.auth, q.auth];
    assert c.mac(q.auth, m) == c.mac(p.auth, n);
    RolesDiffer(own, expected, q.pk, p.pk);
  }

  /** The two key pairs agree on a session whose keys cross, and their headers open. */
  predicate KxAgrees(server: Party, client: Party, c: Crypto) {
    var s := c.kx(Server, server.pk, server.sk, client.pk);
    var k := c.kx(Client, client.pk, client.sk, server.pk);
    && s.Some? && k.Some? && s.value.rx == k.value.tx && s.value.tx == k.value.rx
    && c.initPull(client.header, s.value.rx) && c.initPull(server.header, k.value.rx)
  }

  /** Opposite roles, one authentication key, and key pairs that agree. */
  predicate Matched(p: Party, q: Party, c: Crypto) {
    && p.role == Opposite(q.role) && p.auth == q.auth
    && (if p.role.Server? then KxAgrees(p, q, c) else KxAgrees(q, p, c))
  }

  // ---------------------------------------------------------------- what every step keeps

  function GotLength(phase: Phase, role: Role): nat {
    match phase
    case SendKey => 0
    case RecvKey => 0
    case SendMac => KEY_BYTES
    case RecvMac => KEY_BYTES
    case SendHeader => KEY_BYTES + MAC_BYTES + (if role.Server? then 0 else HEADER_BYTES)
    case RecvHeader => KEY_BYTES + MAC_BYTES
    case Done => KEY_BYTES + MAC_BYTES + HEADER_BYTES
    case Failed => 0
  }

  function SentBytes(p: Party, e: End, c: Crypto): Bytes {
    match e.phase
    case SendKey => []
    case RecvKey => p.pk
    case SendMac => p.pk
    case RecvMac => p.pk + OwnMac(p, e, c)
    case SendHeader => p.pk + OwnMac(p, e, c)
    case RecvHeader => p.pk + OwnMac(p, e, c) + (if p.role.Server? then p.header else [])
    case Done => p.pk + OwnMac(p, e, c) + p.header
    case Failed => []
  }

  predicate PastMac(phase: Phase) {
    phase.SendHeader? || phase.RecvHeader? || phase.Done?
  }

  predicate Verified(p: Party, e: End, c: Crypto) {
    && |e.got| >= KEY_BYTES + MAC_BYTES && e.got[KEY_BYTES..KEY_BYTES + MAC_BYTES] == ExpectedMac(p, e, c)
    && e.session.Some? && e.session == c.kx(p.role, p.pk, p.sk, PeerKey(e))
  }

  /** A failed end stopped somewhere along the same script. */
  predicate OnScript(p: Party, e: End, c: Crypto) {
    || e.sent == p.pk
    || (|e.got| >= KEY_BYTES && (e.sent == p.pk + OwnMac(p, e, c) || e.sent == p.pk + OwnMac(p, e, c) + p.header))
  }

  predicate EndSound(p: Party, e: End, c: Crypto) {
    && (e.phase.Failed? ==> OnScript(p, e, c))
    && (!e.phase.Failed? ==> |e.got| == GotLength(e.phase, p.role) && e.sent == SentBytes(p, e, c))
    && (PastMac(e.phase) ==> Verified(p, e, c))
    && (e.phase.Done? ==> e.session.Some? && c.initPull(PeerHeader(e), e.session.value.rx))
  }

  /** Each end is where its script says and has got a prefix of what the other sent. */
  predicate Linked(p: Party, e: End, q: Party, f: End, c: Crypto) {
    EndSound(p, e, c) && EndSound(q, f, c) && e.got <= f.sent && f.got <= e.sent
  }

  lemma StartSound(p: Party, q: Party, c: Crypto)
    ensures Linked(p, START, q, START, c)
  {
  }

  lemma GotExtends(e: End, peer: End, n: nat)
    requires e.got <= peer.sent && |e.got| + n <= |peer.sent|
    ensures e.got + peer.sent[|e.got|..|e.got| + n] <= peer.sent
  {
  }

  lemma SendSound(p: Party, e: End, c: Crypto)
    requires WellSized(p) && EndSound(p, e, c) && !Receiving(e.phase) && !Terminal(e.phase)
    ensures var e' := Send(p, e, c); EndSound(p, e', c) && e.sent <= e'.sent && e'.got == e.got
  {
  }

  lemma AcceptSound(p: Party, e: End, data: Bytes, c: Crypto)
    requires WellSized(p) && EndSound(p, e, c) && Receiving(e.phase) && |data| == AwaitedBytes(e.phase)
    ensures var e' := Accept(p, e, data, c);
            EndSound(p, e', c) && e'.sent == e.sent && e'.got == e.got + data
  {
    var e' := Accept(p, e, data, c);
    assert e.phase.RecvMac? || e.phase.RecvHeader? ==> PeerKey(e') == PeerKey(e);
  }

  /** Every step of either end keeps the link. */
  lemma StepKeeps(p: Party, e: End, q: Party, f: End, c: Crypto)
    requires WellSized(p) && Linked(p, e, q, f, c) && Step(p, e, f, c).Some?
    ensures Linked(p, Step(p, e, f, c).value, q, f, c)
  {
    if Receiving(e.phase) {
      match Receive(e, f, AwaitedBytes(e.phase))
      case Arrived(data) =>
        AcceptSound(p, e, data, c);
        GotExtends(e, f, AwaitedBytes(e.phase));
      case _ =>
    } else {
      SendSound(p, e, c);
    }
  }

  // ---------------------------------------------------------------- authentication

  /** The peer key an end holds is the one its peer sent. */
  lemma PeerKeyIsSent(p: Party, e: End, q: Party, f: End, c: Crypto)
    requires WellSized(q) && Linked(p, e, q, f, c) && |e.got| >= KEY_BYTES
    ensures PeerKey(e) == q.pk
  {
    assert f.sent[..KEY_BYTES] == q.pk;
  }

  /** What an end sends after its public key is its tag. */
  lemma TagFollowsKey(q: Party, f: End, c: Crypto)
    requires WellSized(q) && TagSized(c) && EndSound(q, f, c) && |f.sent| >= KEY_BYTES + MAC_BYTES
    ensures |f.got| >= KEY_BYTES && f.sent[KEY_BYTES..KEY_BYTES + MAC_BYTES] == OwnMac(q, f, c)
  {
    var tag := OwnMac(q, f, c);
    assert |tag| == MAC_BYTES;
    assert f.sent == q.pk + tag || f.sent == q.pk + tag + q.header;
  }

  /** The second message an end has got is the tag its peer computed. */
  lemma PeerMacIsSent(p: Party, e: End, q: Party, f: End, c: Crypto)
    requires WellSized(q) && TagSized(c) && Linked(p, e, q, f, c) && |e.got| >= KEY_BYTES + MAC_BYTES
    ensures |f.got| >= KEY_BYTES && e.got[KEY_BYTES..KEY_BYTES + MAC_BYTES] == OwnMac(q, f, c)
  {
    TagFollowsKey(q, f, c);
    PrefixSlice(e.got, f.sent, KEY_BYTES, KEY_BYTES + MAC_BYTES);
  }

  lemma PrefixSlice(a: Bytes, b: Bytes, from: nat, to: nat)
    requires a <= b && from <= to <= |a|
    ensures a[from..to] == b[from..to]
  {
  }

  /** An end past the tag check got the tag it expected, and each end holds the other's public key. */
  lemma VerifiedMeansTagsAgree(p: Party, e: End, q: Party, f: End, c: Crypto)
    requires WellSized(p) && WellSized(q) && TagSized(c) && Linked(p, e, q, f, c) && PastMac(e.phase)
    ensures TagsAgree(p, q, c) && PeerKey(e) == q.pk && PeerKey(f) == p.pk
  {
    PeerMacIsSent(p, e, q, f, c);
    PeerKeyIsSent(p, e, q, f, c);
    PeerKeyIsSent(q, f, p, e, c);
  }

  /** An end past the tag check has a peer in the opposite role that holds its authentication key and its public key. */
  lemma VerifiedMeansMatched(p: Party, e: End, q: Party, f: End, c: Crypto)
    requires WellSized(p) && WellSized(q) && TagSized(c) && Linked(p, e, q, f, c)
    requires Unforged(p, q, c) && PastMac(e.phase)
    ensures p.role != q.role && p.auth == q.auth && PeerKey(e) == q.pk && PeerKey(f) == p.pk
  {
    VerifiedMeansTagsAgree(p, e, q, f, c);
    AgreementMeansMatched(p, q, c);
  }

  /** A matched peer's tag always verifies. */
  lemma MatchedMacVerifies(p: Party, e: End, q: Party, f: End, c: Crypto)
    requires WellSized(p) && WellSized(q) && TagSized(c) && Linked(p, e, q, f, c) && Matched(p, q, c)
    requires |e.got| == KEY_BYTES && |f.sent| >= KEY_BYTES + MAC_BYTES
    ensures f.sent[KEY_BYTES..KEY_BYTES + MAC_BYTES] == ExpectedMac(p, e, c)
    ensures c.kx(p.role, p.pk, p.sk, PeerKey(e)).Some?
  {
    TagFollowsKey(q, f, c);
    PeerKeyIsSent(p, e, q, f, c);
    PeerKeyIsSent(q, f, p, e, c);
  }

  /** What a live end sends after its tag is its header. */
  lemma HeaderFollowsMac(q: Party, f: End, c: Crypto)
    requires WellSized(q) && TagSized(c) && EndSound(q, f, c) && !f.phase.Failed?
    requires |f.sent| > KEY_BYTES + MAC_BYTES
    ensures f.sent[KEY_BYTES + MAC_BYTES..] == q.header
  {
    assert |OwnMac(q, f, c)| == MAC_BYTES;
    assert f.sent == q.pk + OwnMac(q, f, c) + q.header;
  }

  lemma PeerHeaderIsSent(p: Party, e: End, q: Party, f: End, c: Crypto)
    requires WellSized(q) && TagSized(c) && Linked(p, e, q, f, c) && !f.phase.Failed?
    requires |e.got| == KEY_BYTES + MAC_BYTES + HEADER_BYTES
    ensures PeerHeader(e) == q.header
  {
    HeaderFollowsMac(q, f, c);
    assert e.got == f.sent[..|e.got|];
    assert |f.sent| == |e.got|;
  }

  /** The third message an end has got is its peer's header, also when the peer failed after sending it. */
  lemma GotHeader(p: Party, e: End, q: Party, f: End, c: Crypto)
    requires WellSized(q) && TagSized(c) && Linked(p, e, q, f, c) && e.phase.Done?
    ensures PeerHeader(e) == q.header
  {
    if f.phase.Failed? {
      assert |OwnMac(q, f, c)| == MAC_BYTES;
      assert f.sent == q.pk + OwnMac(q, f, c) + q.header;
      assert e.got == f.sent;
    } else {
      PeerHeaderIsSent(p, e, q, f, c);
    }
  }

  // ---------------------------------------------------------------- progress

  /** Two live ends never both wait for the other, whatever their roles and keys. */
  lemma SomeEndMoves(p: Party, e: End, q: Party, f: End, c: Crypto)
    requires WellSized(p) && WellSized(q) && TagSized(c) && Linked(p, e, q, f, c)
    requires Unforged(p, q, c) && !Terminal(e.phase)
    ensures Step(p, e, f, c).Some? || Step(q, f, e, c).Some?
  {
    assert |OwnMac(p, e, c)| == MAC_BYTES && |OwnMac(q, f, c)| == MAC_BYTES;
    if e.phase.RecvHeader? && f.phase.RecvHeader? {
      VerifiedMeansMatched(p, e, q, f, c);
    }
  }

  /** Steps an end still has to take. */
  function Remaining(phase: Phase, role: Role): nat {
    match phase
    case SendKey => 6
    case RecvKey => 5
    case SendMac => 4
    case RecvMac => 3
    case SendHeader => if role.Server? then 2 else 1
    case RecvHeader => if role.Server? then 1 else 2
    case Done => 0
    case Failed => 0
  }

  lemma StepAdvances(p: Party, e: End, f: End, c: Crypto)
    requires Step(p, e, f, c).Some?
    ensures Remaining(Step(p, e, f, c).value.phase, p.role) < Remaining(e.phase, p.role)
  {
  }

  /** Opening the stream succeeds between matched ends. */
  lemma MatchedFinishes(p: Party, e: End, q: Party, c: Crypto)
    requires Matched(p, q, c) && PeerHeader(e) == q.header && e.session == c.kx(p.role, p.pk, p.sk, q.pk)
    ensures Finish(e, c).phase.Done?
  {
  }

  lemma MatchedHeaderArrives(p: Party, e: End, q: Party, f: End, c: Crypto)
    requires WellSized(p) && WellSized(q) && TagSized(c) && Linked(p, e, q, f, c) && Matched(p, q, c)
    requires e.phase.RecvHeader? && !f.phase.Failed? && Step(p, e, f, c).Some?
    ensures Step(p, e, f, c).value.phase == if p.role.Server? then Done else SendHeader
  {
    PeerKeyIsSent(p, e, q, f, c);
    HeaderFollowsMac(q, f, c);
    var data := f.sent[|e.got|..|e.got| + HEADER_BYTES];
    assert |OwnMac(q, f, c)| == MAC_BYTES;
    assert data == q.header;
    var e' := e.(got := e.got + data);
    assert PeerHeader(e') == q.header;
    MatchedFinishes(p, e', q, c);
  }

  lemma MatchedHeaderLeaves(p: Party, e: End, q: Party, f: End, c: Crypto)
    requires WellSized(p) && WellSized(q) && TagSized(c) && Linked(p, e, q, f, c) && Matched(p, q, c)
    requires e.phase.SendHeader? && !f.phase.Failed?
    ensures Step(p, e, f, c).value.phase == if p.role.Server? then RecvHeader else Done
  {
    if p.role.Client? {
      PeerKeyIsSent(p, e, q, f, c);
      PeerHeaderIsSent(p, e, q, f, c);
      MatchedFinishes(p, e.(sent := e.sent + p.header), q, c);
    }
  }

  /** Between matched ends no step fails: each is one step nearer the end of its script. */
  lemma MatchedStepAdvances(p: Party, e: End, q: Party, f: End, c: Crypto)
    requires WellSized(p) && WellSized(q) && TagSized(c) && Linked(p, e, q, f, c) && Matched(p, q, c)
    requires !e.phase.Failed? && !f.phase.Failed? && Step(p, e, f, c).Some?
    ensures var e' := Step(p, e, f, c).value;
            !e'.phase.Failed? && Remaining(e'.phase, p.role) == Remaining(e.phase, p.role) - 1
  {
    if e.phase.RecvMac? {
      MatchedMacVerifies(p, e, q, f, c);
    } else if e.phase.RecvHeader? {
      MatchedHeaderArrives(p, e, q, f, c);
    } else if e.phase.SendHeader? {
      MatchedHeaderLeaves(p, e, q, f, c);
    }
  }

  /** Two finished ends: each pushes with the key and header the other pulls with. */
  lemma DoneKeysCross(p: Party, e: End, q: Party, f: End, c: Crypto)
    requires WellSized(p) && WellSized(q) && TagSized(c) && Linked(p, e, q, f, c) && Matched(p, q, c)
    requires e.phase.Done? && f.phase.Done?
    ensures e.session.Some? && f.session.Some?
    ensures e.session.value.tx == f.session.value.rx && f.session.value.tx == e.session.value.rx
    ensures PeerHeader(e) == q.header && PeerHeader(f) == p.header
  {
    PeerKeyIsSent(p, e, q, f, c);
    PeerKeyIsSent(q, f, p, e, c);
    PeerHeaderIsSent(p, e, q, f, c);
    PeerHeaderIsSent(q, f, p, e, c);
  }

  // ---------------------------------------------------------------- every interleaving

  datatype Side = Left | Right

  datatype World = World(left: End, right: End)

  function Move(p: Party, q: Party, w: World, side: Side, c: Crypto): Option<World> {
    match side
    case Left =>
      (match Step(p, w.left, w.right, c) case None => None case Some(e) => Some(w.(left := e)))
    case Right =>
      (match Step(q, w.right, w.left, c) case None => None case Some(f) => Some(w.(right := f)))
  }

  /** The world after the ends have moved in this order; None if one was told to move when it could not. */
  function Run(p: Party, q: Party, schedule: seq<Side>, c: Crypto): Option<World> {
    if schedule == [] then Some(World(START, START))
    else
      var n := |schedule| - 1;
      match Run(p, q, schedule[..n], c)
      case None => None
      case Some(w) => Move(p, q, w, schedule[n], c)
  }

  lemma UnforgedSymmetric(p: Party, q: Party, c: Crypto)
    requires Unforged(p, q, c)
    ensures Unforged(q, p, c)
  {
    forall k, m, l, n | k in [q.auth, p.auth] && l in [q.auth, p.auth] && m in Messages(q, p) && n in Messages(q, p)
                        && c.mac(k, m) == c.mac(l, n)
      ensures k == l && m == n
    {
      assert k in [p.auth, q.auth] && l in [p.auth, q.auth] && m in Messages(p, q) && n in Messages(p, q);
    }
  }

  ghost predicate Setting(p: Party, q: Party, c: Crypto) {
    WellSized(p) && WellSized(q) && TagSized(c) && Unforged(p, q, c)
  }

  function StepsLeft(p: Party, q: Party, w: World): nat {
    Remaining(w.left.phase, p.role) + Remaining(w.right.phase, q.role)
  }

  lemma {:induction false} RunLinked(p: Party, q: Party, schedule: seq<Side>, c: Crypto)
    requires Setting(p, q, c) && Run(p, q, schedule, c).Some?
    ensures var w := Run(p, q, schedule, c).value; Linked(p, w.left, q, w.right, c)
    ensures |schedule| + StepsLeft(p, q, Run(p, q, schedule, c).value) <= 12
  {
    if schedule == [] {
      StartSound(p, q, c);
    } else {
      var n := |schedule| - 1;
      RunLinked(p, q, schedule[..n], c);
      var w := Run(p, q, schedule[..n], c).value;
      if schedule[n].Left? {
        StepKeeps(p, w.left, q, w.right, c);
        StepAdvances(p, w.left, w.right, c);
      } else {
        StepKeeps(q, w.right, p, w.left, c);
        StepAdvances(q, w.right, w.left, c);
      }
    }
  }

  /**
   In every interleaving, whatever the roles and authentication keys, the ends never both wait: until both have finished or
   failed one of them can move, and after at most twelve steps both have.
   */
  lemma NeverStuck(p: Party, q: Party, schedule: seq<Side>, c: Crypto)
    requires Setting(p, q, c) && Run(p, q, schedule, c).Some?
    ensures |schedule| <= 12
    ensures var w := Run(p, q, schedule, c).value;
            (Terminal(w.left.phase) && Terminal(w.right.phase))
            || Run(p, q, schedule + [Left], c).Some? || Run(p, q, schedule + [Right], c).Some?
  {
    RunLinked(p, q, schedule, c);
    var w := Run(p, q, schedule, c).value;
    assert (schedule + [Left])[..|schedule|] == schedule && (schedule + [Right])[..|schedule|] == schedule;
    if !Terminal(w.left.phase) {
      SomeEndMoves(p, w.left, q, w.right, c);
    } else if !Terminal(w.right.phase) {
      UnforgedSymmetric(p, q, c);
      SomeEndMoves(q, w.right, p, w.left, c);
    }
  }

  lemma MatchedSymmetric(p: Party, q: Party, c: Crypto)
    requires Matched(p, q, c)
    ensures Matched(q, p, c)
  {
  }

  /** Between matched ends no interleaving fails, and each step counts. */
  lemma {:induction false} MatchedRun(p: Party, q: Party, schedule: seq<Side>, c: Crypto)
    requires Setting(p, q, c) && Matched(p, q, c) && Run(p, q, schedule, c).Some?
    ensures var w := Run(p, q, schedule, c).value;
            !w.left.phase.Failed? && !w.right.phase.Failed? && |schedule| + StepsLeft(p, q, w) == 12
  {
    if schedule != [] {
      var n := |schedule| - 1;
      MatchedRun(p, q, schedule[..n], c);
      RunLinked(p, q, schedule[..n], c);
      var w := Run(p, q, schedule[..n], c).value;
      if schedule[n].Left? {
        MatchedStepAdvances(p, w.left, q, w.right, c);
      } else {
        MatchedSymmetric(p, q, c);
        MatchedStepAdvances(q, w.right, p, w.left, c);
      }
    }
  }

  /**
   A server end and a client end with one authentication key: every interleaving can be carried on until
   both have finished, which takes exactly twelve steps, and then each pushes what the other pulls.
   */
  lemma MatchedEndsFinish(p: Party, q: Party, schedule: seq<Side>, c: Crypto)
    requires Setting(p, q, c) && Matched(p, q, c) && Run(p, q, schedule, c).Some?
    ensures var w := Run(p, q, schedule, c).value;
            if |schedule| < 12
            then Run(p, q, schedule + [Left], c).Some? || Run(p, q, schedule + [Right], c).Some?
            else
              && w.left.phase.Done? && w.right.phase.Done?
              && w.left.session.Some? && w.right.session.Some?
              && w.left.session.value.tx == w.right.session.value.rx
              && w.right.session.value.tx == w.left.session.value.rx
              && PeerHeader(w.left) == q.header && PeerHeader(w.right) == p.header
  {
    var w := Run(p, q, schedule, c).value;
    MatchedRun(p, q, schedule, c);
    NeverStuck(p, q, schedule, c);
    RunLinked(p, q, schedule, c);
    if |schedule| == 12 {
      DoneKeysCross(p, w.left, q, w.right, c);
    }
  }

  /**
   Two ends given the same role, or different authentication keys: in no interleaving does either get past
   the tag check, let alone finish.
   */
  lemma MismatchedNeverFinish(p: Party, q: Party, schedule: seq<Side>, c: Crypto)
    requires Setting(p, q, c) && (p.role == q.role || p.auth != q.auth) && Run(p, q, schedule, c).Some?
    ensures var w := Run(p, q, schedule, c).value; !PastMac(w.left.phase) && !PastMac(w.right.phase)
  {
    var w := Run(p, q, schedule, c).value;
    RunLinked(p, q, schedule, c);
    if PastMac(w.left.phase) {
      VerifiedMeansMatched(p, w.left, q, w.right, c);
    }
    if PastMac(w.right.phase) {
      UnforgedSymmetric(p, q, c);
      VerifiedMeansMatched(q, w.right, p, w.left, c);
    }
  }

  /**
   In every interleaving an end that has finished did so with a peer in the other role that holds its
   authentication key, on the session of the two key pairs, with its incoming stream opened on the peer's header.
   */
  lemma FinishedMeansOpened(p: Party, q: Party, schedule: seq<Side>, c: Crypto)
    requires Setting(p, q, c) && Run(p, q, schedule, c).Some?
    ensures var e := Run(p, q, schedule, c).value.left;
            e.phase.Done? ==>
              && p.role != q.role && p.auth == q.auth && e.session.Some?
              && e.session == c.kx(p.role, p.pk, p.sk, q.pk) && c.initPull(q.header, e.session.value.rx)
    ensures var f := Run(p, q, schedule, c).value.right;
            f.phase.Done? ==>
              && p.role != q.role && p.auth == q.auth && f.session.Some?
              && f.session == c.kx(q.role, q.pk, q.sk, p.pk) && c.initPull(p.header, f.session.value.rx)
  {
    var w := Run(p, q, schedule, c).value;
    RunLinked(p, q, schedule, c);
    if w.left.phase.Done? {
      VerifiedMeansMatched(p, w.left, q, w.right, c);
      GotHeader(p, w.left, q, w.right, c);
    }
    if w.right.phase.Done? {
      UnforgedSymmetric(p, q, c);
      VerifiedMeansMatched(q, w.right, p, w.left, c);
      GotHeader(q, w.right, p, w.left, c);
    }
  }
}
