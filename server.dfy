/**
 * The relay hub: the parse of a connection's first frame, the identity it is
 * recorded under, the recipient count of a seek, and the `Hub` object whose
 * buckets and `client_info` table the handler, the broadcasts and the
 * operator commands change in place. Each method of `Hub` is proved to move
 * the hub from `State()` to the state a `Registry` function describes.
 */
module Server {
  import opened Wrappers
  import opened Text
  import opened Registry

  /** The close code the hub uses when it turns a connection away (policy violation). */
  const PolicyViolation: nat := 1008

  const AuthFailedText := "Authentication failed: " + "Invalid token or format"

  /** The diagnostic for a role that is neither `seeker` nor `switcher`. */
  function InvalidTypeText(clientType: string): string {
    "Invalid client type: " + clientType + ". Must be 'seeker' or 'switcher'"
  }

  function WelcomeText(role: Role): string {
    "Authentication successful! " + "Welcome to the WebSocket server as " + Name(role) + "."
  }

  /** The echo the hub sends for every message it receives. */
  function EchoText(message: string): string {
    "Server received: " + message
  }

  /** The role a lowercased client type names, if any. */
  function RoleOf(clientType: string): (r: Option<Role>)
    ensures r.Some? <==> clientType == "seeker" || clientType == "switcher"
    ensures r.Some? ==> Name(r.value) == clientType
  {
    if clientType == "seeker" then Some(Seeker)
    else if clientType == "switcher" then Some(Switcher)
    else None
  }

  /** How the hub answers a connection's first frame. */
  datatype Admission =
    | Accepted(role: Role)
    | Unauthorized
    | InvalidClientType(clientType: string)

  /**
   * The first frame split once at its first colon: a frame without a colon, or
   * whose first part is not exactly `token`, is unauthorized; otherwise the
   * lowercased second part must name a role.
   */
  function ParseAuth(frame: string, token: string): (a: Admission)
    ensures a.InvalidClientType? ==> RoleOf(a.clientType).None?
  {
    match SplitOnce(frame, ':')
    case None => Unauthorized
    case Some((given, clientType)) =>
      if given != token then Unauthorized
      else
        match RoleOf(Lower(clientType))
        case Some(role) => Accepted(role)
        case None => InvalidClientType(Lower(clientType))
  }

  /** The frame starts with `token` and a colon, and `token` itself has no colon. */
  predicate PresentsToken(frame: string, token: string) {
    ':' !in token && StartsWith(frame, token + ":")
  }

  /** When the frame presents the token, the split at the first colon falls right after it. */
  lemma PresentedSplit(frame: string, token: string)
    requires PresentsToken(frame, token)
    ensures SplitOnce(frame, ':') == Some((token, frame[|token| + 1..]))
  {
    var rest := frame[|token| + 1..];
    assert frame == token + [':'] + rest by {
      assert frame[..|token| + 1] == token + ":";
      assert frame == frame[..|token| + 1] + rest;
    }
    SplitOnceAt(token, ':', rest);
  }

  /**
   * Admission succeeds exactly when the frame presents the token and the rest of
   * the frame, lowercased, is a role's name; the token is compared exactly.
   */
  lemma AcceptedIff(frame: string, token: string, role: Role)
    ensures ParseAuth(frame, token) == Accepted(role)
        <==> PresentsToken(frame, token) && Lower(frame[|token| + 1..]) == Name(role)
  {
    if PresentsToken(frame, token) {
      PresentedSplit(frame, token);
    }
    if ParseAuth(frame, token).Accepted? {
      var Some((given, clientType)) := SplitOnce(frame, ':');
      assert given == token;
      assert frame == token + [':'] + clientType;
      assert frame[..|token| + 1] == token + ":";
    }
  }

  /** A frame that does not present the token is unauthorized, whatever follows. */
  lemma UnauthorizedIff(frame: string, token: string)
    ensures ParseAuth(frame, token) == Unauthorized <==> !PresentsToken(frame, token)
  {
    if PresentsToken(frame, token) {
      PresentedSplit(frame, token);
    }
    if ParseAuth(frame, token) != Unauthorized {
      var Some((given, clientType)) := SplitOnce(frame, ':');
      assert frame == token + [':'] + clientType;
      assert frame[..|token| + 1] == token + ":";
    }
  }

  /** The address a session is recorded under, the first `X-Forwarded-For` entry winning. */
  function ResolveIdentity(remote: Option<string>, forwarded: Option<string>): (ip: string)
    ensures forwarded.Some? && forwarded.value != [] ==> ip == Strip(Split(forwarded.value, ',')[0])
    ensures (forwarded.None? || forwarded.value == []) && remote.Some? ==> ip == remote.value
    ensures (forwarded.None? || forwarded.value == []) && remote.None? ==> ip == "unknown"
  {
    var fallback := match remote case Some(address) => address case None => "unknown";
    match forwarded
    case Some(header) => if header != [] then Strip(Split(header, ',')[0]) else fallback
    case None => fallback
  }

  /** The first forwarded address, stripped of surrounding blanks, wins over later ones and over the peer. */
  lemma {:induction false} FirstForwardedWins(remote: Option<string>, left: string, first: string, right: string, rest: string)
    requires forall k :: 0 <= k < |left| ==> IsSpace(left[k])
    requires forall k :: 0 <= k < |right| ==> IsSpace(right[k])
    requires Unpadded(first) && ',' !in first
    ensures ResolveIdentity(remote, Some(left + first + right + "," + rest)) == first
  {
    assert !IsSpace(',');
    assert ',' !in left && ',' !in right;
    var head := left + first + right;
    assert ',' !in head;
    SplitOnceAt(head, ',', rest);
    assert head + "," + rest == head + [','] + rest;
    assert Split(head + "," + rest, ',')[0] == head;
    StripPadded(left, first, right);
  }

  /** `max(1, n // 2 + 1)`: how many seekers a seek is sent to. */
  function MajorityCount(n: nat): (k: nat)
    ensures k >= 1 && n < 2 * k && 2 * (k - 1) <= n
    ensures n >= 1 ==> k <= n
  {
    if n / 2 + 1 > 1 then n / 2 + 1 else 1
  }

  /** The count is the least strict majority: no smaller number of seekers outnumbers the rest. */
  lemma MajorityIsLeast(n: nat, m: nat)
    requires n < 2 * m
    ensures MajorityCount(n) <= m
  {
  }

  /** The counts of the hub's documentation: one of one, three of four, three of five. */
  lemma MajorityExamples()
    ensures MajorityCount(1) == 1 && MajorityCount(2) == 2 && MajorityCount(4) == 3 && MajorityCount(5) == 3
  {
  }

  /** `min(num_recipients, len(seekers))`: never more than there are. */
  function SampleSize(n: nat): (size: nat)
    ensures size <= n
    ensures n >= 1 ==> size == MajorityCount(n)
  {
    var k := MajorityCount(n);
    if k < n then k else n
  }

  /** `r` is a possible result of `random.sample(pool, size)`: `size` distinct members of `pool`. */
  predicate IsSample(r: seq<Session>, pool: seq<Session>, size: nat) {
    |r| == size && NoDup(r) && forall x :: x in r ==> x in pool
  }

  /** A bucket's first `size` sessions are one possible sample, so a sample always exists. */
  lemma PrefixIsSample(pool: seq<Session>, size: nat)
    requires NoDup(pool) && size <= |pool|
    ensures IsSample(pool[..size], pool, size)
  {
  }

  /** The registry after the first frame of `s`: admitted, or sent a diagnostic and a close frame. */
  function AfterHandshake(st: HubState, s: Session, outcome: Admission, ip: string, now: int): HubState
    requires WellFormed(st)
  {
    match outcome
    case Accepted(role) => Admitted(st, s, role, ip, now, WelcomeText(role))
    case Unauthorized =>
      st.(sent := st.sent + [Frame(s, AuthFailedText), Close(s, PolicyViolation, "Unauthorized")])
    case InvalidClientType(clientType) =>
      st.(sent := st.sent + [Frame(s, InvalidTypeText(clientType)), Close(s, PolicyViolation, "Invalid client type")])
  }

  /**
   * A turned-away connection leaves the buckets and `client_info` as they were and
   * is sent a diagnostic followed by a close frame with code 1008; an admitted one
   * is welcomed with a frame naming its role.
   */
  lemma HandshakeOutcome(st: HubState, s: Session, outcome: Admission, ip: string, now: int)
    requires WellFormed(st) && s !in st.info
    ensures var after := AfterHandshake(st, s, outcome, ip, now);
      && WellFormed(after)
      && (!outcome.Accepted? ==>
            && after.clients == st.clients && after.info == st.info && after.notices == st.notices
            && |after.sent| == |st.sent| + 2 && after.sent[..|st.sent|] == st.sent
            && after.sent[|st.sent|].Frame? && after.sent[|st.sent|].to == s
            && after.sent[|st.sent| + 1] == Close(s, PolicyViolation, after.sent[|st.sent| + 1].reason))
      && (outcome.Unauthorized? ==>
            after.sent[|st.sent|..] == [Frame(s, AuthFailedText), Close(s, PolicyViolation, "Unauthorized")])
      && (outcome.InvalidClientType? ==>
            after.sent[|st.sent|..] == [Frame(s, InvalidTypeText(outcome.clientType)), Close(s, PolicyViolation, "Invalid client type")])
      && (outcome.Accepted? ==>
            && s in after.clients[outcome.role] && s !in after.clients[Other(outcome.role)]
            && after.info[s] == ClientInfo(outcome.role, ip, now, 0)
            && after.sent == st.sent + [Frame(s, WelcomeText(outcome.role))])
  {
    if outcome.Accepted? {
      AdmittedPlacesOnce(st, s, outcome.role, ip, now, WelcomeText(outcome.role));
    }
  }

  /** An answer to an operator's command. */
  datatype Reply =
    | NoClients(role: Role)
    | Sending(role: Role, count: nat, total: nat, command: string)

  /** The `/status` report. */
  datatype StatusReport = StatusReport(seekers: nat, switchers: nat, total: nat)

  /** The frame a `/seek` command broadcasts: its first argument, or `0` without one. */
  function SeekFrame(args: seq<string>): (frame: string)
    ensures StartsWith(frame, "/seek ")
    ensures frame[6..] == if |args| > 0 then args[0] else "0"
  {
    "/seek " + if |args| > 0 then args[0] else "0"
  }

  const SwitchFrame := "/switch"

  class Hub {
    /** `clients`: the sessions of each role, in order of admission. */
    var clients: map<Role, seq<Session>>
    /** `client_info`: the record of each admitted session. */
    var info: map<Session, ClientInfo>
    /** Every frame the hub has tried to send, in order. */
    var sent: seq<Outgoing>
    /** Every operator notification, in order. */
    var notices: seq<Notice>
    /** `AUTH_TOKEN`. */
    const token: string

    function State(): HubState
      reads this
    {
      HubState(clients, info, sent, notices)
    }

    predicate Valid()
      reads this
    {
      WellFormed(State())
    }

    constructor(token: string)
      ensures Valid() && State() == Initial && this.token == token
    {
      clients := map[Seeker := [], Switcher := []];
      info := map[];
      sent := [];
      notices := [];
      this.token := token;
    }

    /** The `/status` figures: each bucket's size and their sum, which is the number of records. */
    function Status(): (r: StatusReport)
      reads this
      requires Valid()
      ensures r.seekers == |clients[Seeker]| && r.switchers == |clients[Switcher]|
      ensures r.total == |info|
    {
      BucketsCountRecords(State());
      StatusReport(|clients[Seeker]|, |clients[Switcher]|, |clients[Seeker]| + |clients[Switcher]|)
    }

    /** The handshake of a new connection `s`, for its first frame and the addresses it came with. */
    method Admit(s: Session, frame: string, remote: Option<string>, forwarded: Option<string>, now: int)
      returns (outcome: Admission)
      requires Valid() && s !in info
      modifies this
      ensures Valid()
      ensures outcome == ParseAuth(frame, token)
      ensures State() == AfterHandshake(old(State()), s, outcome, ResolveIdentity(remote, forwarded), now)
    {
      outcome := ParseAuth(frame, token);
      match outcome {
        case Unauthorized =>
          sent := sent + [Frame(s, AuthFailedText), Close(s, PolicyViolation, "Unauthorized")];
        case InvalidClientType(clientType) =>
          sent := sent + [Frame(s, InvalidTypeText(clientType)), Close(s, PolicyViolation, "Invalid client type")];
        case Accepted(role) =>
          var ip := ResolveIdentity(remote, forwarded);
          clients := clients[role := clients[role] + [s]];
          info := info[s := ClientInfo(role, ip, now, 0)];
          notices := notices + [Connected(role, ip, |clients[role]|)];
          sent := sent + [Frame(s, WelcomeText(role))];
      }
      HandshakeOutcome(old(State()), s, outcome, ResolveIdentity(remote, forwarded), now);
    }

    /** One message received on `s`; `handled` is false when `s` has no record and the handler gives up. */
    method RecordMessage(s: Session, message: string) returns (handled: bool)
      requires Valid()
      modifies this
      ensures Valid()
      ensures handled <==> s in old(info)
      ensures State() == AfterMessage(old(State()), s, EchoText(message))
    {
      ghost var target := AfterMessage(State(), s, EchoText(message));
      MessageCounts(State(), s, EchoText(message));
      assert WellFormed(target);
      if s in info {
        var record := info[s];
        info := info[s := record.(messagesReceived := record.messagesReceived + 1)];
        sent := sent + [Frame(s, EchoText(message))];
        handled := true;
      } else {
        handled := false;
      }
      assert State() == target;
    }

    /** The `finally` clause of the connection handler. */
    method Cleanup(s: Session)
      requires Valid()
      modifies this
      ensures Valid()
      ensures State() == CleanedUp(old(State()), s)
    {
      ghost var target := CleanedUp(State(), s);
      CleanupRemoves(State(), s);
      if s in info && info[s].role in clients && s in clients[info[s].role] {
        var role := info[s].role;
        var ip := info[s].ip;
        clients := clients[role := RemoveFirst(clients[role], s)];
        notices := notices + [Disconnected(role, ip, |clients[role]|)];
      }
      info := info - {s};
      assert State() == target;
    }

    /** The send loop of a broadcast: one attempt per recipient, collecting those that failed. */
    method SendAll(rs: seq<Session>, msg: string, delivers: Session -> bool) returns (disconnected: set<Session>)
      modifies this
      ensures disconnected == Failed(rs, delivers)
      ensures sent == old(sent) + Attempts(rs, msg)
      ensures clients == old(clients) && info == old(info) && notices == old(notices)
    {
      disconnected := {};
      var i := 0;
      while i < |rs|
        invariant 0 <= i <= |rs|
        invariant sent == old(sent) + Attempts(rs[..i], msg)
        invariant disconnected == Failed(rs[..i], delivers)
        invariant clients == old(clients) && info == old(info) && notices == old(notices)
      {
        assert rs[..i + 1] == rs[..i] + [rs[i]];
        sent := sent + [Frame(rs[i], msg)];
        if !delivers(rs[i]) {
          disconnected := disconnected + {rs[i]};
        }
        i := i + 1;
      }
      assert rs[..i] == rs;
    }

    /**
     * The clean-up loop of a broadcast: each failed session, in whatever order the
     * set yields them, leaves bucket `role` if it is there, and loses its record.
     */
    method RemoveAll(role: Role, disconnected: set<Session>)
      requires role in clients && NoDup(clients[role])
      modifies this
      ensures clients == old(clients)[role := Without(old(clients[role]), disconnected)]
      ensures info == old(info) - disconnected
      ensures sent == old(sent) && notices == old(notices)
    {
      var current, table := RemoveSessions(clients[role], info, disconnected);
      clients := clients[role := current];
      info := table;
    }

    /** A best-effort broadcast of `msg` to `rs`, sessions of bucket `role`. */
    method Dispatch(role: Role, rs: seq<Session>, msg: string, delivers: Session -> bool)
      requires Valid() && forall x :: x in rs ==> x in clients[role]
      modifies this
      ensures Valid()
      ensures State() == Dispatched(old(State()), role, rs, msg, delivers)
    {
      ghost var target := Dispatched(State(), role, rs, msg, delivers);
      DispatchKeepsWellFormed(State(), role, rs, msg, delivers);
      assert role == Seeker || role == Switcher;
      assert NoDup(clients[role]);
      var disconnected := SendAll(rs, msg, delivers);
      RemoveAll(role, disconnected);
      if disconnected != {} {
        notices := notices + [Removed(role, |disconnected|, |clients[role]|)];
      }
      assert State() == target;
    }

    /** `broadcast_to_clients_by_type`: `msg` to every session of `role`. */
    method BroadcastToRole(msg: string, role: Role, delivers: Session -> bool)
      requires Valid()
      modifies this
      ensures Valid()
      ensures State() == Dispatched(old(State()), role, old(clients[role]), msg, delivers)
    {
      if |clients[role]| == 0 {
        DispatchNothing(State(), role, msg, delivers);
        return;
      }
      Dispatch(role, clients[role], msg, delivers);
    }

    /** `broadcast_to_random_seekers`: `msg` to a random strict majority of the seekers. */
    method BroadcastToRandomSeekers(msg: string, delivers: Session -> bool) returns (recipients: seq<Session>)
      requires Valid()
      modifies this
      ensures Valid()
      ensures |old(clients[Seeker])| == 0 ==> recipients == []
      ensures |old(clients[Seeker])| > 0 ==>
        IsSample(recipients, old(clients[Seeker]), MajorityCount(|old(clients[Seeker])|))
      ensures State() == Dispatched(old(State()), Seeker, recipients, msg, delivers)
    {
      var seekers := clients[Seeker];
      if |seekers| == 0 {
        recipients := [];
        DispatchNothing(State(), Seeker, msg, delivers);
        return;
      }
      var size := SampleSize(|seekers|);
      PrefixIsSample(seekers, size);
      recipients :| IsSample(recipients, seekers, size);
      assert IsSample(recipients, seekers, size);
      assert forall x :: x in recipients ==> x in seekers;
      Dispatch(Seeker, recipients, msg, delivers);
    }

    /** The `/seek` command: reports the count it sends to, then broadcasts to random seekers. */
    method SeekCommand(args: seq<string>, delivers: Session -> bool) returns (reply: Reply, recipients: seq<Session>)
      requires Valid()
      modifies this
      ensures Valid()
      ensures var n := |old(clients[Seeker])|;
        && (n == 0 ==> reply == NoClients(Seeker) && recipients == [] && State() == old(State()))
        && (n > 0 ==>
              && reply == Sending(Seeker, MajorityCount(n), n, SeekFrame(args))
              && |recipients| == reply.count
              && IsSample(recipients, old(clients[Seeker]), reply.count)
              && State() == Dispatched(old(State()), Seeker, recipients, SeekFrame(args), delivers))
    {
      var n := |clients[Seeker]|;
      if n == 0 {
        reply := NoClients(Seeker);
        recipients := [];
        return;
      }
      reply := Sending(Seeker, MajorityCount(n), n, SeekFrame(args));
      recipients := BroadcastToRandomSeekers(SeekFrame(args), delivers);
    }

    /** The `/switch` command: reports the number of switchers, then broadcasts to all of them. */
    method SwitchCommand(delivers: Session -> bool) returns (reply: Reply)
      requires Valid()
      modifies this
      ensures Valid()
      ensures var n := |old(clients[Switcher])|;
        && (n == 0 ==> reply == NoClients(Switcher) && State() == old(State()))
        && (n > 0 ==>
              && reply == Sending(Switcher, n, n, SwitchFrame)
              && State() == Dispatched(old(State()), Switcher, old(clients[Switcher]), SwitchFrame, delivers))
    {
      var n := |clients[Switcher]|;
      if n == 0 {
        reply := NoClients(Switcher);
        return;
      }
      reply := Sending(Switcher, n, n, SwitchFrame);
      BroadcastToRole(SwitchFrame, Switcher, delivers);
    }
  }

  /**
   * The loop behind `Hub.RemoveAll`, on the bucket and the record table: each failed
   * session, in whatever order the set yields them, leaves the bucket if it is there
   * and loses its record.
   */
  method RemoveSessions(bucket: seq<Session>, records: map<Session, ClientInfo>, disconnected: set<Session>)
    returns (current: seq<Session>, table: map<Session, ClientInfo>)
    requires NoDup(bucket)
    ensures current == Without(bucket, disconnected)
    ensures table == records - disconnected
  {
    current, table := bucket, records;
    var pending := disconnected;
    ghost var done: set<Session> := {};
    WithoutNothing(bucket);
    while pending != {}
      invariant pending + done == disconnected && pending * done == {}
      invariant current == Without(bucket, done)
      invariant table == records - done
      decreases |pending|
    {
      var c :| c in pending;
      RemovalStep(bucket, done, c);
      TableStep(records, done, c);
      PendingStep(pending, done, disconnected, c);
      if c in current {
        current := RemoveFirst(current, c);
      }
      table := table - {c};
      pending := pending - {c};
      done := done + {c};
    }
    assert done == disconnected;
  }

  /** Dropping one more record from what is left of a table. */
  lemma TableStep<K, V>(m: map<K, V>, done: set<K>, c: K)
    ensures (m - done) - {c} == m - (done + {c})
  {
  }

  /** Moving one session from the pending set to the done set keeps their union and disjointness. */
  lemma PendingStep<K>(pending: set<K>, done: set<K>, all: set<K>, c: K)
    requires pending + done == all && pending * done == {} && c in pending
    ensures (pending - {c}) + (done + {c}) == all && (pending - {c}) * (done + {c}) == {}
    ensures |pending - {c}| < |pending|
  {
  }

  /** One step of the removal loop: removing `c` from what is left agrees with removing `done + {c}`. */
  lemma RemovalStep(b: seq<Session>, done: set<Session>, c: Session)
    requires NoDup(b)
    ensures var current := Without(b, done);
      (if c in current then RemoveFirst(current, c) else current) == Without(b, done + {c})
  {
    var current := Without(b, done);
    WithoutNoDup(b, done);
    WithoutStep(b, done, c);
    if c in current {
      RemoveFirstIsWithout(current, c);
    } else {
      WithoutAbsent(current, {c});
    }
  }
}
