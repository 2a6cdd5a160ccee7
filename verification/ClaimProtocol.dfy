/** The interface-claim protocol as a state machine over whole requests: exclusive owners, normal claims, the
    callbacks and death recipients of owners, and the set of interfaces the HAL holds claimed.

    `ClaimService` proves the request handlers against these step functions; `ClaimRuns` proves what every run of
    them keeps, and `ClaimInterleaving` what is left when a request is cut at its lock sections. */
module ClaimProtocol {
  import opened UsbTypes

  /** One interface of one device. */
  datatype Iface = Iface(bus: uint8, addr: uint8, id: uint8)

  /** Access token of a caller; the access-token service never issues 0, which stands for "no owner". */
  type Token = uint32

  /** The object told when the owner's process dies; it is bound to one interface and one token for life. */
  datatype Recipient = Recipient(iface: Iface, token: Token)

  /** One entry of the claim map. Callbacks are identified by their remote object. */
  datatype Claim = Claim(owner: Token, normal: bool, callback: Option<nat>, recipient: Option<Recipient>)

  const NO_CLAIM: Claim := Claim(0, false, None, None)

  datatype HalReply = HalOk | HalErrOp | HalError(code: int)

  datatype Reply = Ok | Busy | InvalidOperation | IoException | Hal(reply: HalReply)

  /** Claims pass a HAL failure on as it is; releases rename one of them. */
  function ClaimReply(h: HalReply): Reply {
    if h.HalOk? then Ok else Hal(h)
  }

  function ReleaseReply(h: HalReply): Reply {
    if h.HalErrOp? then InvalidOperation else ClaimReply(h)
  }

  datatype World = World(claims: map<Iface, Claim>, hal: set<Iface>)

  const EMPTY: World := World(map[], {})

  /** Requests as the service sees them, each with the answers of the HAL and of the binder:
      `linked` says whether the death recipient could be attached to the callback. */
  datatype Request =
    | Normal(i: Iface, t: Token, hal: HalReply)
    | Exclusive(i: Iface, t: Token, cb: Option<nat>, linked: bool, hal: HalReply)
    | Release(i: Iface, t: Token, hal: HalReply)
    | Close(bus: uint8, addr: uint8, t: Token)
    | Detach(bus: uint8, addr: uint8)
    | Died(r: Recipient, hal: HalReply)

  function Entry(claims: map<Iface, Claim>, i: Iface): Claim {
    if i in claims then claims[i] else NO_CLAIM
  }

  function Disowned(c: Claim): Claim {
    c.(owner := 0, callback := None, recipient := None)
  }

  // ---- Steps ---------------------------------------------------------------------------------------------

  function NormalStep(w: World, i: Iface, hal: HalReply): World {
    if hal.HalOk? then World(w.claims[i := Entry(w.claims, i).(normal := true)], w.hal + {i}) else w
  }

  /** The callback told about a normal claim, if any. */
  function ConflictNotice(w: World, i: Iface, t: Token, hal: HalReply): Option<nat> {
    var c := Entry(w.claims, i);
    if hal.HalOk? && c.owner != 0 && c.owner != t then c.callback else None
  }

  /** First lock section of an exclusive claim: refuse, or go on remembering whether this is a repeat. */
  datatype Verdict = Refuse | Proceed(isRepeat: bool)

  function Check(claims: map<Iface, Claim>, i: Iface, t: Token): Verdict {
    if i !in claims then Proceed(false)
    else if claims[i].owner == t then Proceed(true)
    else if claims[i].owner != 0 || claims[i].normal then Refuse
    else Proceed(false)
  }

  /** Second lock section: the entry is created when missing. */
  function Record(claims: map<Iface, Claim>, i: Iface, t: Token, cb: nat, isRepeat: bool): map<Iface, Claim> {
    var c := Entry(claims, i);
    claims[i := Claim(if isRepeat then c.owner else t, c.normal, Some(cb), Some(Recipient(i, t)))]
  }

  predicate Registers(cb: Option<nat>, linked: bool) {
    cb.Some? && linked
  }

  function ExclusiveStep(w: World, i: Iface, t: Token, cb: Option<nat>, linked: bool, hal: HalReply): World {
    match Check(w.claims, i, t)
    case Refuse => w
    case Proceed(isRepeat) =>
      if !hal.HalOk? then w
      else World(if Registers(cb, linked) then Record(w.claims, i, t, cb.value, isRepeat) else w.claims, w.hal + {i})
  }

  /** What a release does to the claim map, and whether it is passed on to the HAL. */
  datatype Outcome = Denied | KeepHal(claims: map<Iface, Claim>) | ToHal(claims: map<Iface, Claim>)

  function ReleaseState(claims: map<Iface, Claim>, i: Iface, t: Token): Outcome {
    if i !in claims then ToHal(claims)
    else
      var c := claims[i];
      if c.owner == t then
        if c.normal then KeepHal(claims[i := Disowned(c)]) else ToHal(claims - {i})
      else if c.owner != 0 then
        if c.normal then KeepHal(claims[i := c.(normal := false)]) else Denied
      else if c.normal then ToHal(claims - {i})
      else ToHal(claims)
  }

  function ReleaseStep(w: World, i: Iface, t: Token, hal: HalReply): World {
    match ReleaseState(w.claims, i, t)
    case Denied => w
    case KeepHal(claims) => World(claims, w.hal)
    case ToHal(claims) => World(claims, if hal.HalOk? then w.hal - {i} else w.hal)
  }

  predicate OnDevice(i: Iface, bus: uint8, addr: uint8) {
    i.bus == bus && i.addr == addr
  }

  /** Closing drops the caller's ownerships on the device; entries nobody needs any more go. */
  function CloseClaims(claims: map<Iface, Claim>, bus: uint8, addr: uint8, t: Token): map<Iface, Claim> {
    map i | i in claims && !(OnDevice(i, bus, addr) && claims[i].owner == t && !claims[i].normal) ::
      if OnDevice(i, bus, addr) && claims[i].owner == t then Disowned(claims[i]) else claims[i]
  }

  function DetachClaims(claims: map<Iface, Claim>, bus: uint8, addr: uint8): map<Iface, Claim> {
    map i | i in claims && !OnDevice(i, bus, addr) :: claims[i]
  }

  function DiedStep(w: World, r: Recipient, hal: HalReply): World {
    var c := Entry(w.claims, r.iface);
    if r.iface !in w.claims || c.owner != r.token then w
    else if c.normal then World(w.claims[r.iface := Disowned(c)], w.hal)
    else World(w.claims - {r.iface}, if hal.HalOk? then w.hal - {r.iface} else w.hal)
  }

  function Apply(w: World, q: Request): World {
    match q
    case Normal(i, t, hal) => NormalStep(w, i, hal)
    case Exclusive(i, t, cb, linked, hal) => ExclusiveStep(w, i, t, cb, linked, hal)
    case Release(i, t, hal) => ReleaseStep(w, i, t, hal)
    case Close(bus, addr, t) => w.(claims := CloseClaims(w.claims, bus, addr, t))
    case Detach(bus, addr) => w.(claims := DetachClaims(w.claims, bus, addr))
    case Died(r, hal) => DiedStep(w, r, hal)
  }

  /** What the caller of a claim or a release is told; the other requests have no say in the matter. */
  function Answer(w: World, q: Request): Reply {
    match q
    case Normal(i, t, hal) => ClaimReply(hal)
    case Exclusive(i, t, cb, linked, hal) => if Check(w.claims, i, t).Refuse? then Busy else ClaimReply(hal)
    case Release(i, t, hal) =>
      (match ReleaseState(w.claims, i, t)
       case Denied => InvalidOperation
       case KeepHal(_) => Ok
       case ToHal(_) => ReleaseReply(hal))
    case Close(_, _, _) => Ok
    case Detach(_, _) => Ok
    case Died(_, _) => Ok
  }

  /** The guard in front of bulk and submitted transfers. */
  function GuardTransfer(claims: map<Iface, Claim>, i: Iface, t: Token): Reply {
    var c := Entry(claims, i);
    if c.owner != 0 && !c.normal && c.owner != t then IoException else Ok
  }

  /** The token a request comes from; detaches come from the kernel. */
  function TokenOf(q: Request): Option<Token> {
    match q
    case Normal(_, t, _) => Some(t)
    case Exclusive(_, t, _, _, _) => Some(t)
    case Release(_, t, _) => Some(t)
    case Close(_, _, t) => Some(t)
    case Detach(_, _) => None
    case Died(r, _) => Some(r.token)
  }

  /** Every token that reaches the service is a real one. */
  predicate RealToken(q: Request) {
    TokenOf(q) != Some(0)
  }

  function Run(w: World, qs: seq<Request>): World {
    if qs == [] then w else Apply(Run(w, qs[..|qs| - 1]), qs[|qs| - 1])
  }
}
