/**
 * The hub's session registry as a value: the `clients` buckets (one ordered
 * list of sessions per role), the `client_info` table, the frames the hub
 * has tried to send and the notices it has raised for the operators. Each
 * operation of the hub is specified here as a function from the state before
 * to the state after; the `Hub` class in module `Server` is proved to follow
 * these functions, and the lemmas below say what they promise.
 */
module Registry {

  /** The two client roles the hub accepts. */
  datatype Role = Seeker | Switcher

  /** The lowercase name a role has on the wire and in `client_info`. */
  function Name(r: Role): (n: string)
    ensures n == "seeker" || n == "switcher"
  {
    match r
    case Seeker => "seeker"
    case Switcher => "switcher"
  }

  /** The role that is not `r`. */
  function Other(r: Role): (o: Role)
    ensures o != r
  {
    match r
    case Seeker => Switcher
    case Switcher => Seeker
  }

  /** A connection, known to the hub only by its identity. */
  type Session = nat

  /** One `client_info` record. `connectedAt` is the event-loop clock reading at admission. */
  datatype ClientInfo = ClientInfo(role: Role, ip: string, connectedAt: int, messagesReceived: nat)

  /** What the hub hands to a connection: a text frame, or a close frame with its code and reason. */
  datatype Outgoing =
    | Frame(to: Session, text: string)
    | Close(to: Session, code: nat, reason: string)

  /** The operator notifications, by kind, with the figures each one reports. */
  datatype Notice =
    | Connected(role: Role, ip: string, total: nat)
    | Disconnected(role: Role, ip: string, total: nat)
    | Removed(role: Role, count: nat, remaining: nat)

  datatype HubState = HubState(
    clients: map<Role, seq<Session>>,
    info: map<Session, ClientInfo>,
    sent: seq<Outgoing>,
    notices: seq<Notice>)

  /** The state the hub starts in: both buckets present and empty. */
  const Initial := HubState(map[Seeker := [], Switcher := []], map[], [], [])

  predicate NoDup(s: seq<Session>) {
    forall i, j :: 0 <= i < j < |s| ==> s[i] != s[j]
  }

  /** The sessions in bucket `r` are exactly the sessions whose record names role `r`. */
  predicate BucketMatches(st: HubState, r: Role)
    requires r in st.clients
  {
    && (forall s :: s in st.clients[r] ==> s in st.info && st.info[s].role == r)
    && (forall s :: s in st.info && st.info[s].role == r ==> s in st.clients[r])
  }

  /**
   * The registry invariant: both buckets exist, no session occurs twice in a
   * bucket, and the buckets and `client_info` describe the same sessions.
   */
  predicate WellFormed(st: HubState) {
    && Seeker in st.clients && Switcher in st.clients
    && NoDup(st.clients[Seeker]) && NoDup(st.clients[Switcher])
    && BucketMatches(st, Seeker) && BucketMatches(st, Switcher)
  }

  lemma InitialWellFormed()
    ensures WellFormed(Initial)
    ensures Initial.clients[Seeker] == [] && Initial.clients[Switcher] == []
  {
  }

  /** `x` occurs before `y` in `s`. */
  predicate Before(s: seq<Session>, x: Session, y: Session) {
    exists i, j :: 0 <= i < j < |s| && s[i] == x && s[j] == y
  }

  /** `b` with every session of `gone` taken out, the others kept in their order. */
  function Without(b: seq<Session>, gone: set<Session>): (r: seq<Session>)
    ensures forall x :: x in r <==> x in b && x !in gone
    ensures |r| <= |b|
  {
    if |b| == 0 then []
    else if b[0] in gone then Without(b[1..], gone)
    else [b[0]] + Without(b[1..], gone)
  }

  lemma {:induction false} WithoutNoDup(b: seq<Session>, gone: set<Session>)
    requires NoDup(b)
    ensures NoDup(Without(b, gone))
  {
    if |b| > 0 {
      WithoutNoDup(b[1..], gone);
      if b[0] !in gone {
        var r := Without(b[1..], gone);
        HeadNotInTail(b);
        assert b[0] !in r;
      }
    }
  }

  /** In a sequence without repeats the first session does not occur again. */
  lemma HeadNotInTail(b: seq<Session>)
    requires NoDup(b) && |b| > 0
    ensures b[0] !in b[1..]
  {
    forall k | 0 <= k < |b| - 1
      ensures b[1..][k] != b[0]
    {
      assert b[1..][k] == b[k + 1];
    }
  }

  /** Taking nothing out changes nothing. */
  lemma {:induction false} WithoutNothing(b: seq<Session>)
    ensures Without(b, {}) == b
  {
    if |b| > 0 {
      WithoutNothing(b[1..]);
      assert [b[0]] + b[1..] == b;
    }
  }

  /** Taking out sessions that do not occur changes nothing. */
  lemma {:induction false} WithoutAbsent(b: seq<Session>, gone: set<Session>)
    requires forall x :: x in gone ==> x !in b
    ensures Without(b, gone) == b
  {
    if |b| > 0 {
      assert b[0] in b;
      assert b == [b[0]] + b[1..];
      WithoutAbsent(b[1..], gone);
      assert [b[0]] + b[1..] == b;
    }
  }

  /** Taking out a set of sessions that all occur, once each, shortens the bucket by its size. */
  lemma {:induction false} WithoutLength(b: seq<Session>, gone: set<Session>)
    requires NoDup(b) && forall x :: x in gone ==> x in b
    ensures |Without(b, gone)| == |b| - |gone|
  {
    if |b| == 0 {
      assert gone == {};
    } else {
      var h, t := b[0], b[1..];
      assert NoDup(t);
      HeadNotInTail(b);
      var rest := gone - {h};
      forall x | x in rest
        ensures x in t
      {
        assert x in b && x != h;
        var k :| 0 <= k < |b| && b[k] == x;
        assert k > 0;
        assert t[k - 1] == x;
      }
      WithoutLength(t, rest);
      if h in gone {
        assert |rest| == |gone| - 1;
        assert Without(t, rest) == Without(t, gone) by {
          WithoutSame(t, rest, gone);
        }
      } else {
        assert rest == gone;
      }
    }
  }

  /** Two sets that agree on the members of `b` take the same sessions out of it. */
  lemma {:induction false} WithoutSame(b: seq<Session>, g1: set<Session>, g2: set<Session>)
    requires forall x :: x in b ==> (x in g1 <==> x in g2)
    ensures Without(b, g1) == Without(b, g2)
  {
    if |b| > 0 {
      assert b[0] in b;
      assert b == [b[0]] + b[1..];
      WithoutSame(b[1..], g1, g2);
    }
  }

  /** A pair ordered in the result of `Without` was ordered, and kept, in the input. */
  lemma {:induction false} WithoutOrderFrom(b: seq<Session>, gone: set<Session>, x: Session, y: Session)
    requires Before(Without(b, gone), x, y)
    ensures Before(b, x, y) && x !in gone && y !in gone
  {
    var h, t := b[0], b[1..];
    assert b == [h] + t;
    var w, wt := Without(b, gone), Without(t, gone);
    var i, j :| 0 <= i < j < |w| && w[i] == x && w[j] == y;
    assert x in w && y in w;
    if h in gone {
      WithoutOrderFrom(t, gone, x, y);
      BeforeShift(h, t, x, y);
    } else if i == 0 {
      assert w == [h] + wt;
      assert w[j] == wt[j - 1];
      assert y in t;
      var k :| 0 <= k < |t| && t[k] == y;
      assert b[0] == x && b[k + 1] == y;
    } else {
      assert w == [h] + wt;
      assert wt[i - 1] == x && wt[j - 1] == y;
      WithoutOrderFrom(t, gone, x, y);
      BeforeShift(h, t, x, y);
    }
  }

  /** Two sessions that both survive `Without` keep their order. */
  lemma {:induction false} WithoutOrderKept(b: seq<Session>, gone: set<Session>, x: Session, y: Session)
    requires Before(b, x, y) && x !in gone && y !in gone
    ensures Before(Without(b, gone), x, y)
  {
    var h, t := b[0], b[1..];
    var w, wt := Without(b, gone), Without(t, gone);
    var i, j :| 0 <= i < j < |b| && b[i] == x && b[j] == y;
    if i == 0 {
      assert w == [h] + wt;
      assert t[j - 1] == y;
      assert y in wt;
      var k :| 0 <= k < |wt| && wt[k] == y;
      assert w[0] == x && w[k + 1] == y;
    } else {
      assert t[i - 1] == x && t[j - 1] == y;
      WithoutOrderKept(t, gone, x, y);
      if h !in gone {
        assert w == [h] + wt;
        BeforeShift(h, wt, x, y);
      }
    }
  }

  /** `Without` keeps exactly the order of the sessions it keeps. */
  lemma WithoutKeepsOrder(b: seq<Session>, gone: set<Session>, x: Session, y: Session)
    ensures Before(Without(b, gone), x, y) <==> Before(b, x, y) && x !in gone && y !in gone
  {
    if Before(Without(b, gone), x, y) {
      WithoutOrderFrom(b, gone, x, y);
    }
    if Before(b, x, y) && x !in gone && y !in gone {
      WithoutOrderKept(b, gone, x, y);
    }
  }

  /** An order inside the tail of a sequence is an order inside the sequence. */
  lemma BeforeShift(h: Session, t: seq<Session>, x: Session, y: Session)
    requires Before(t, x, y)
    ensures Before([h] + t, x, y)
  {
    var i, j :| 0 <= i < j < |t| && t[i] == x && t[j] == y;
    var b := [h] + t;
    assert b[i + 1] == x && b[j + 1] == y;
  }

  /** `list.remove(c)`: the first occurrence of `c` taken out. */
  function RemoveFirst(b: seq<Session>, c: Session): (r: seq<Session>)
    requires c in b
    ensures |r| == |b| - 1
  {
    if b[0] == c then b[1..] else [b[0]] + RemoveFirst(b[1..], c)
  }

  /** `list.remove(c)` takes out exactly the first occurrence of `c` and keeps everything around it. */
  lemma {:induction false} RemoveFirstTakesFirst(b: seq<Session>, c: Session)
    requires c in b
    ensures exists i :: 0 <= i < |b| && b[i] == c && c !in b[..i] && RemoveFirst(b, c) == b[..i] + b[i + 1..]
  {
    if b[0] == c {
      assert b[..0] + b[1..] == b[1..];
      assert c !in b[..0];
    } else {
      var tail := b[1..];
      assert c in tail;
      RemoveFirstTakesFirst(tail, c);
      var t := RemoveFirst(tail, c);
      var j :| 0 <= j < |tail| && tail[j] == c && c !in tail[..j] && t == tail[..j] + tail[j + 1..];
      RemoveFirstShift(b, c, t, j);
      var i := j + 1;
      assert b[i] == c && c !in b[..i] && RemoveFirst(b, c) == b[..i] + b[i + 1..];
    }
  }

  /** Taking the `j`-th element out of the tail, after a head that is not `c`, takes out the `j + 1`-th of the whole. */
  lemma RemoveFirstShift(b: seq<Session>, c: Session, t: seq<Session>, j: nat)
    requires |b| > 0 && b[0] != c && j < |b| - 1
    requires b[1..][j] == c && c !in b[1..][..j] && t == b[1..][..j] + b[1..][j + 1..]
    ensures b[j + 1] == c && c !in b[..j + 1] && [b[0]] + t == b[..j + 1] + b[j + 2..]
  {
    var tail := b[1..];
    assert b[..j + 1] == [b[0]] + tail[..j];
    assert b[j + 2..] == tail[j + 1..];
  }

  /** In a bucket without repeats, removing the first occurrence removes the session. */
  lemma {:induction false} RemoveFirstIsWithout(b: seq<Session>, c: Session)
    requires c in b && NoDup(b)
    ensures RemoveFirst(b, c) == Without(b, {c})
  {
    if b[0] == c {
      HeadNotInTail(b);
      WithoutAbsent(b[1..], {c});
    } else {
      assert c in b[1..] by {
        var k :| 0 <= k < |b| && b[k] == c;
        assert k > 0 && b[1..][k - 1] == c;
      }
      RemoveFirstIsWithout(b[1..], c);
    }
  }

  /** Removing sessions one more at a time agrees with removing them all at once. */
  lemma {:induction false} WithoutStep(b: seq<Session>, done: set<Session>, c: Session)
    ensures Without(Without(b, done), {c}) == Without(b, done + {c})
  {
    if |b| > 0 {
      WithoutStep(b[1..], done, c);
    }
  }

  /** The sessions of `rs` whose send failed. */
  function Failed(rs: seq<Session>, delivers: Session -> bool): (f: set<Session>)
    ensures forall x :: x in f <==> x in rs && !delivers(x)
  {
    set x | x in rs && !delivers(x)
  }

  /** One send attempt of `msg` to each session of `rs`, in order. */
  function Attempts(rs: seq<Session>, msg: string): (out: seq<Outgoing>)
    ensures |out| == |rs|
    ensures forall i :: 0 <= i < |rs| ==> out[i] == Frame(rs[i], msg)
  {
    seq(|rs|, i requires 0 <= i < |rs| => Frame(rs[i], msg))
  }

  /** The number of text frames addressed to `s`. */
  function SendsTo(out: seq<Outgoing>, s: Session): nat {
    if |out| == 0 then 0
    else (if out[0].Frame? && out[0].to == s then 1 else 0) + SendsTo(out[1..], s)
  }

  lemma {:induction false} SendsToAppend(a: seq<Outgoing>, b: seq<Outgoing>, s: Session)
    ensures SendsTo(a + b, s) == SendsTo(a, s) + SendsTo(b, s)
  {
    if |a| > 0 {
      assert (a + b)[1..] == a[1..] + b;
      SendsToAppend(a[1..], b, s);
    } else {
      assert a + b == b;
    }
  }

  /** A broadcast to sessions without repeats attempts each of them exactly once and no one else. */
  lemma {:induction false} AttemptsOnce(rs: seq<Session>, msg: string, s: Session)
    requires NoDup(rs)
    ensures SendsTo(Attempts(rs, msg), s) == if s in rs then 1 else 0
  {
    if |rs| > 0 {
      var out := Attempts(rs, msg);
      assert out[1..] == Attempts(rs[1..], msg);
      assert NoDup(rs[1..]);
      AttemptsOnce(rs[1..], msg, s);
      if rs[0] == s {
        HeadNotInTail(rs);
      } else {
        assert s in rs <==> s in rs[1..];
      }
    }
  }

  /**
   * A best-effort broadcast of `msg` to `rs`, sessions of bucket `role`: every
   * recipient gets one attempt, those whose send failed leave the bucket and
   * `client_info`, and a removal notice reports them when there are any.
   */
  function Dispatched(st: HubState, role: Role, rs: seq<Session>, msg: string, delivers: Session -> bool): HubState
    requires role in st.clients
  {
    var failed := Failed(rs, delivers);
    var bucket := Without(st.clients[role], failed);
    HubState(
      st.clients[role := bucket],
      st.info - failed,
      st.sent + Attempts(rs, msg),
      st.notices + if failed == {} then [] else [Removed(role, |failed|, |bucket|)])
  }

  /** Nobody to send to: nothing is sent, no state changes and no notice is raised. */
  lemma DispatchNothing(st: HubState, role: Role, msg: string, delivers: Session -> bool)
    requires role in st.clients
    ensures Dispatched(st, role, [], msg, delivers) == st
  {
    WithoutNothing(st.clients[role]);
    assert st.clients[role := st.clients[role]] == st.clients;
    assert st.info - {} == st.info;
  }

  /**
   * After a broadcast to members of bucket `role`: a failed session is in neither
   * bucket nor `client_info`; every other session of the bucket is still there with
   * its record; the survivors' order is the old order; the other bucket is unchanged.
   */
  lemma DispatchEffect(st: HubState, role: Role, rs: seq<Session>, msg: string, delivers: Session -> bool)
    requires WellFormed(st) && forall x :: x in rs ==> x in st.clients[role]
    ensures var after := Dispatched(st, role, rs, msg, delivers);
      && (forall s :: s in rs && !delivers(s) ==> s !in after.clients[role] && s !in after.clients[Other(role)] && s !in after.info)
      && (forall s :: s in st.clients[role] && !(s in rs && !delivers(s)) ==>
            s in after.clients[role] && s in after.info && after.info[s] == st.info[s])
      && (forall x, y :: Before(after.clients[role], x, y) <==> Before(st.clients[role], x, y) && x !in Failed(rs, delivers) && y !in Failed(rs, delivers))
      && after.clients[Other(role)] == st.clients[Other(role)]
  {
    var failed := Failed(rs, delivers);
    forall x, y
      ensures Before(Without(st.clients[role], failed), x, y) <==> Before(st.clients[role], x, y) && x !in failed && y !in failed
    {
      WithoutKeepsOrder(st.clients[role], failed, x, y);
    }
    assert BucketMatches(st, Other(role));
  }

  /** A broadcast to members of a bucket keeps the registry invariant. */
  lemma DispatchKeepsWellFormed(st: HubState, role: Role, rs: seq<Session>, msg: string, delivers: Session -> bool)
    requires WellFormed(st) && forall x :: x in rs ==> x in st.clients[role]
    ensures WellFormed(Dispatched(st, role, rs, msg, delivers))
  {
    var after := Dispatched(st, role, rs, msg, delivers);
    WithoutNoDup(st.clients[role], Failed(rs, delivers));
    assert BucketMatches(st, role) && BucketMatches(st, Other(role));
    assert BucketMatches(after, role);
    assert BucketMatches(after, Other(role));
    assert after.clients[Seeker] == after.clients[role] || after.clients[Seeker] == after.clients[Other(role)];
  }

  /**
   * A broadcast without repeats attempts each recipient exactly once, whatever the
   * outcomes; the removal notice appears exactly when some send failed, and reports
   * how many failed and how many sessions the bucket has left.
   */
  lemma DispatchReport(st: HubState, role: Role, rs: seq<Session>, msg: string, delivers: Session -> bool, s: Session)
    requires WellFormed(st) && NoDup(rs) && forall x :: x in rs ==> x in st.clients[role]
    ensures var after := Dispatched(st, role, rs, msg, delivers);
      && SendsTo(after.sent, s) == SendsTo(st.sent, s) + (if s in rs then 1 else 0)
      && (|after.notices| == |st.notices| + 1 <==> exists x :: x in rs && !delivers(x))
      && (|after.notices| == |st.notices| ==> after.notices == st.notices)
      && |after.clients[role]| == |st.clients[role]| - |Failed(rs, delivers)|
      && (|after.notices| == |st.notices| + 1 ==>
            after.notices[|st.notices|] == Removed(role, |Failed(rs, delivers)|, |after.clients[role]|))
  {
    var failed := Failed(rs, delivers);
    SendsToAppend(st.sent, Attempts(rs, msg), s);
    AttemptsOnce(rs, msg, s);
    WithoutLength(st.clients[role], failed);
    if exists x :: x in rs && !delivers(x) {
      var x :| x in rs && !delivers(x);
      assert x in failed;
    }
  }

  /** `client_info` and the buckets after `s` is admitted with `role`, seen from `ip` at clock reading `now`. */
  function Admitted(st: HubState, s: Session, role: Role, ip: string, now: int, welcome: string): HubState
    requires role in st.clients
  {
    var bucket := st.clients[role] + [s];
    HubState(
      st.clients[role := bucket],
      st.info[s := ClientInfo(role, ip, now, 0)],
      st.sent + [Frame(s, welcome)],
      st.notices + [Connected(role, ip, |bucket|)])
  }

  /**
   * A new session joins exactly one bucket, its role's, at the end; its record has
   * that role, the identity and no messages yet; the notice counts it.
   */
  lemma AdmittedPlacesOnce(st: HubState, s: Session, role: Role, ip: string, now: int, welcome: string)
    requires WellFormed(st) && s !in st.info
    ensures var after := Admitted(st, s, role, ip, now, welcome);
      && WellFormed(after)
      && after.clients[role] == st.clients[role] + [s]
      && s !in after.clients[Other(role)] && after.clients[Other(role)] == st.clients[Other(role)]
      && after.info[s] == ClientInfo(role, ip, now, 0)
      && after.notices[|st.notices|] == Connected(role, ip, |st.clients[role]| + 1)
  {
    var after := Admitted(st, s, role, ip, now, welcome);
    assert BucketMatches(st, role) && BucketMatches(st, Other(role));
    assert s !in st.clients[role];
    assert BucketMatches(after, role);
    assert BucketMatches(after, Other(role));
    assert after.clients[Seeker] == after.clients[role] || after.clients[Seeker] == after.clients[Other(role)];
  }

  /** The `finally` clause: take `s` out of its role's bucket if it is there, and drop its record. */
  function CleanedUp(st: HubState, s: Session): HubState {
    if s in st.info && st.info[s].role in st.clients && s in st.clients[st.info[s].role] then
      var role := st.info[s].role;
      var bucket := RemoveFirst(st.clients[role], s);
      HubState(
        st.clients[role := bucket],
        st.info - {s},
        st.sent,
        st.notices + [Disconnected(role, st.info[s].ip, |bucket|)])
    else
      st.(info := st.info - {s})
  }

  /** Cleaning up a session the registry does not know changes nothing. */
  lemma CleanupAbsent(st: HubState, s: Session)
    requires s !in st.info
    ensures CleanedUp(st, s) == st
  {
    assert st.info - {s} == st.info;
  }

  /** Cleaning up twice is the same as cleaning up once. */
  lemma CleanupIdempotent(st: HubState, s: Session)
    ensures CleanedUp(CleanedUp(st, s), s) == CleanedUp(st, s)
  {
    CleanupAbsent(CleanedUp(st, s), s);
  }

  /** After clean-up the session is in no bucket and has no record, and the invariant holds. */
  lemma CleanupRemoves(st: HubState, s: Session)
    requires WellFormed(st)
    ensures var after := CleanedUp(st, s);
      && WellFormed(after)
      && s !in after.info && s !in after.clients[Seeker] && s !in after.clients[Switcher]
      && (forall x :: x != s && x in st.info ==> x in after.info && after.info[x] == st.info[x])
  {
    var after := CleanedUp(st, s);
    assert BucketMatches(st, Seeker) && BucketMatches(st, Switcher);
    if s in st.info {
      var role := st.info[s].role;
      RemoveFirstIsWithout(st.clients[role], s);
      WithoutNoDup(st.clients[role], {s});
      assert BucketMatches(after, role);
      assert BucketMatches(after, Other(role));
      assert after.clients[Seeker] == after.clients[role] || after.clients[Seeker] == after.clients[Other(role)];
    } else {
      CleanupAbsent(st, s);
    }
  }

  /** Clean-up undoes admission: buckets and `client_info` are as before, and the notice counts the rest. */
  lemma CleanupUndoesAdmission(st: HubState, s: Session, role: Role, ip: string, now: int, welcome: string)
    requires WellFormed(st) && s !in st.info
    ensures var after := CleanedUp(Admitted(st, s, role, ip, now, welcome), s);
      && after.clients == st.clients && after.info == st.info
      && after.notices[|after.notices| - 1] == Disconnected(role, ip, |st.clients[role]|)
  {
    var mid := Admitted(st, s, role, ip, now, welcome);
    assert BucketMatches(st, role);
    assert s !in st.clients[role];
    var b := st.clients[role] + [s];
    assert NoDup(b);
    RemoveFirstIsWithout(b, s);
    WithoutAbsentTail(st.clients[role], s);
    assert mid.clients[role := st.clients[role]] == st.clients;
    assert mid.info - {s} == st.info;
  }

  /** Taking the appended session back out of `b + [s]` gives `b`. */
  lemma {:induction false} WithoutAbsentTail(b: seq<Session>, s: Session)
    requires s !in b
    ensures Without(b + [s], {s}) == b
  {
    if |b| == 0 {
      assert [] + [s] == [s];
    } else {
      assert (b + [s])[1..] == b[1..] + [s];
      WithoutAbsentTail(b[1..], s);
      assert [b[0]] + b[1..] == b;
    }
  }

  /** One message received on `s`: its counter goes up and the echo is sent; without a record nothing happens. */
  function AfterMessage(st: HubState, s: Session, echo: string): HubState {
    if s in st.info then
      var record := st.info[s];
      st.(info := st.info[s := record.(messagesReceived := record.messagesReceived + 1)],
          sent := st.sent + [Frame(s, echo)])
    else
      st
  }

  /** A message touches only its own session's counter and keeps the invariant. */
  lemma MessageCounts(st: HubState, s: Session, echo: string)
    requires WellFormed(st)
    ensures var after := AfterMessage(st, s, echo);
      && WellFormed(after) && after.clients == st.clients && after.info.Keys == st.info.Keys
      && (s in st.info ==>
            && after.info[s].messagesReceived == st.info[s].messagesReceived + 1
            && after.info[s].role == st.info[s].role && after.info[s].ip == st.info[s].ip)
      && (forall x :: x in st.info && x != s ==> after.info[x] == st.info[x])
      && (s !in st.info ==> after == st)
  {
    var after := AfterMessage(st, s, echo);
    assert BucketMatches(st, Seeker) && BucketMatches(st, Switcher);
    assert BucketMatches(after, Seeker) && BucketMatches(after, Switcher);
  }

  /** The sessions that occur in `b`. */
  function Members(b: seq<Session>): (m: set<Session>)
    ensures forall x :: x in m <==> x in b
  {
    set x | x in b
  }

  /** The distinct sessions of a bucket without repeats are as many as its length. */
  lemma {:induction false} DistinctCount(b: seq<Session>)
    requires NoDup(b)
    ensures |Members(b)| == |b|
  {
    if |b| > 0 {
      var t := b[1..];
      assert NoDup(t);
      DistinctCount(t);
      HeadNotInTail(b);
      var whole, rest := Members(b), Members(t);
      assert b == [b[0]] + t;
      forall x
        ensures x in whole <==> x in rest || x == b[0]
      {
      }
      assert whole == rest + {b[0]};
      assert b[0] !in rest;
    }
  }

  /** The two bucket sizes add up to the number of `client_info` records. */
  lemma BucketsCountRecords(st: HubState)
    requires WellFormed(st)
    ensures |st.clients[Seeker]| + |st.clients[Switcher]| == |st.info|
  {
    var a, b := st.clients[Seeker], st.clients[Switcher];
    assert BucketMatches(st, Seeker) && BucketMatches(st, Switcher);
    DistinctCount(a);
    DistinctCount(b);
    var sa, sb := Members(a), Members(b);
    forall x | x in sa
      ensures x !in sb
    {
      assert st.info[x].role == Seeker;
    }
    assert sa * sb == {};
    assert st.info.Keys == sa + sb;
  }
}
