/**
 Administrator sessions of apps/admin-api/src/auth.ts: session records that idle out after thirty
 minutes and end after twelve hours, a per-account index used to revoke them together, and account
 credential versions. Each service method is one atomic step.
 */
module AdminSessions {
  import opened Redis
  import opened Wrappers

  type Token = string
  type Subject = string

  const MINUTE_MS := 60_000
  const IDLE_MS := 30 * MINUTE_MS
  const REFRESH_MS := 5 * MINUTE_MS
  const LIFETIME_MS := 720 * MINUTE_MS

  datatype Account = Account(enabled: bool, credentialVersion: nat)

  datatype Stored = Stored(subject: Subject, credentialVersion: nat, createdAt: int, lastSeenAt: int, expiresAt: int)

  /** The session keys, the account sets, and the account table. */
  datatype Store = Store(
    sessions: map<Token, Key<Stored>>,
    index: map<Subject, Key<set<Token>>>,
    accounts: map<Subject, Account>)

  function SessionKey(s: Store, token: Token): Key<Stored> {
    if token in s.sessions then s.sessions[token] else Absent
  }

  function IndexKey(s: Store, subject: Subject): Key<set<Token>> {
    if subject in s.index then s.index[subject] else Absent
  }

  function Earlier(a: int, b: int): int {
    if a < b then a else b
  }

  /** SET of a new record, SADD to the account set, EXPIRE of the account set. */
  function WithSession(s: Store, now: int, subject: Subject, version: nat, token: Token): Store {
    s.(sessions := s.sessions[token := Present(Stored(subject, version, now, now, now + LIFETIME_MS), now + IDLE_MS)],
       index := s.index[subject := Present(IndexKey(s, subject).ReadAt(now, {}) + {token}, now + LIFETIME_MS)])
  }

  /** Who a token belongs to, when it is accepted. */
  function Verified(s: Store, now: int, token: Token): Option<Subject> {
    var key := SessionKey(s, token);
    if !key.LiveAt(now) || key.value.expiresAt <= now then None else
    var subject := key.value.subject;
    if subject in s.accounts && s.accounts[subject] == Account(true, key.value.credentialVersion)
    then Some(subject)
    else None
  }

  /** The store after a token was presented: an accepted one is written again after five minutes. */
  function Touched(s: Store, now: int, token: Token): Store {
    if Verified(s, now, token).None? then s else
    var record := s.sessions[token].value;
    if now - record.lastSeenAt < REFRESH_MS then s else
    var deadline := now + Earlier(IDLE_MS, record.expiresAt - now);
    s.(sessions := s.sessions[token := Present(record.(lastSeenAt := now), deadline)])
  }

  /** SMEMBERS, DEL of all of them, DEL of the set. */
  function Revoked(s: Store, now: int, subject: Subject): Store {
    s.(sessions := s.sessions - IndexKey(s, subject).ReadAt(now, {}), index := s.index - {subject})
  }

  function WithNewVersion(s: Store, subject: Subject, enabled: bool): Store
    requires subject in s.accounts
  {
    s.(accounts := s.accounts[subject := Account(enabled, s.accounts[subject].credentialVersion + 1)])
  }

  /** The service, writing its three stores in place. */
  class AdminPasswordAuthService {
    var sessions: map<Token, Key<Stored>>
    var index: map<Subject, Key<set<Token>>>
    var accounts: map<Subject, Account>

    ghost function Contents(): Store
      reads this
    {
      Store(sessions, index, accounts)
    }

    constructor (accounts: map<Subject, Account>)
      ensures Contents() == Store(map[], map[], accounts)
    {
      this.sessions, this.index, this.accounts := map[], map[], accounts;
    }

    method CreateSession(now: int, subject: Subject, version: nat, token: Token)
      modifies this
      ensures Contents() == WithSession(old(Contents()), now, subject, version, token)
    {
      var data := Stored(subject, version, now, now, now + LIFETIME_MS);
      sessions := sessions[token := Present(data, now + IDLE_MS)];
      // SADD creates the set without a deadline or keeps the one it has; EXPIRE sets it anew
      var members := if subject in index then index[subject].ReadAt(now, {}) else {};
      members := members + {token};
      index := index[subject := Present(members, now + LIFETIME_MS)];
    }

    method Verify(now: int, token: Token) returns (identity: Option<Subject>)
      modifies this
      ensures identity == Verified(old(Contents()), now, token)
      ensures Contents() == Touched(old(Contents()), now, token)
    {
      if token !in sessions || !sessions[token].LiveAt(now) {
        return None;
      }
      var stored := sessions[token].value;
      if stored.expiresAt <= now {
        return None;
      }
      if stored.subject !in accounts {
        return None;
      }
      var account := accounts[stored.subject];
      if !account.enabled || account.credentialVersion != stored.credentialVersion {
        return None;
      }
      if now - stored.lastSeenAt >= REFRESH_MS {
        stored := stored.(lastSeenAt := now);
        var ttl := Earlier(IDLE_MS, stored.expiresAt - now);
        sessions := sessions[token := Present(stored, now + ttl)];
      }
      return Some(stored.subject);
    }

    method RevokeAll(now: int, subject: Subject)
      modifies this
      ensures Contents() == Revoked(old(Contents()), now, subject)
    {
      var keys := if subject in index then index[subject].ReadAt(now, {}) else {};
      if keys != {} {
        sessions := sessions - keys;
      } else {
        assert sessions - keys == sessions;
      }
      index := index - {subject};
    }

    method Logout(now: int, token: Token, allDevices: bool) returns (ok: bool)
      modifies this
      ensures Contents() == if allDevices then LoggedOutEverywhere(old(Contents()), now, token)
                            else LoggedOut(old(Contents()), token)
      ensures ok <==> (allDevices ==> Verified(old(Contents()), now, token).Some?)
    {
      ok := true;
      if allDevices {
        var identity := Verify(now, token);
        if identity.None? {
          return false;
        }
        RevokeAll(now, identity.value);
        return;
      }
      sessions := sessions - {token};
    }

    /** The current password is checked by the caller's `correct`; scrypt is not part of this model. */
    method ChangePassword(now: int, token: Token, correct: bool) returns (ok: bool)
      modifies this
      ensures Contents() == PasswordChanged(old(Contents()), now, token, correct)
      ensures ok <==> correct && Verified(old(Contents()), now, token).Some?
    {
      var identity := Verify(now, token);
      if identity.None? || !correct {
        return false;
      }
      var account := accounts[identity.value];
      accounts := accounts[identity.value := account.(credentialVersion := account.credentialVersion + 1)];
      RevokeAll(now, identity.value);
      return true;
    }
  }

  function LoggedOut(s: Store, token: Token): Store {
    s.(sessions := s.sessions - {token})
  }

  function LoggedOutEverywhere(s: Store, now: int, token: Token): Store {
    match Verified(s, now, token)
    case None => s
    case Some(subject) => Revoked(Touched(s, now, token), now, subject)
  }

  function PasswordChanged(s: Store, now: int, token: Token, correct: bool): Store {
    match Verified(s, now, token)
    case None => s
    case Some(subject) =>
      if !correct then Touched(s, now, token)
      else Revoked(WithNewVersion(Touched(s, now, token), subject, true), now, subject)
  }

  // ----- runs

  /**
   What happened to a token: who logged in and when, the last record write, the last accepted use,
   how many account writes there had been at the login, and whether the session was ended by a logout
   or a password change.
   */
  datatype History = History(subject: Subject, login: int, written: int, used: int, seen: nat, ended: bool)

  /** `changes` lists the account of each hash upgrade, password change and enable or disable, in order. */
  datatype System = System(now: int, store: Store, issued: map<Token, History>, changes: seq<Subject>)

  datatype Event =
    | Wait(ms: nat)
    | Login(subject: Subject, token: Token, upgradeHash: bool)
    | Use(token: Token)
    | LogoutOne(token: Token)
    | LogoutAll(token: Token)
    | ChangePassword(token: Token, correct: bool)
    | SetEnabled(subject: Subject, enabled: bool)

  /** Tokens are drawn at random: a login never reuses one. */
  predicate Enabled(s: System, e: Event) {
    match e
    case Login(subject, token, _) =>
      token !in s.issued && subject in s.store.accounts && s.store.accounts[subject].enabled
    case SetEnabled(subject, _) => subject in s.store.accounts
    case _ => true
  }

  function LoggedIn(s: Store, now: int, subject: Subject, token: Token, upgradeHash: bool): Store
    requires subject in s.accounts && s.accounts[subject].enabled
  {
    var t := if upgradeHash then WithNewVersion(s, subject, true) else s;
    WithSession(t, now, subject, t.accounts[subject].credentialVersion, token)
  }

  function StoreAfter(s: System, e: Event): Store
    requires Enabled(s, e)
  {
    match e
    case Wait(_) => s.store
    case Login(subject, token, upgrade) => LoggedIn(s.store, s.now, subject, token, upgrade)
    case Use(token) => Touched(s.store, s.now, token)
    case LogoutOne(token) => LoggedOut(s.store, token)
    case LogoutAll(token) => LoggedOutEverywhere(s.store, s.now, token)
    case ChangePassword(token, correct) => PasswordChanged(s.store, s.now, token, correct)
    case SetEnabled(subject, enabled) => WithNewVersion(s.store, subject, enabled)
  }

  function Noted(s: System, token: Token): map<Token, History> {
    if Verified(s.store, s.now, token).None? || token !in s.issued then s.issued else
    var h := s.issued[token];
    s.issued[token := h.(used := s.now, written := if REFRESH_MS <= s.now - h.written then s.now else h.written)]
  }

  function AllEnded(issued: map<Token, History>, subject: Subject): map<Token, History> {
    map token | token in issued ::
      if issued[token].subject == subject then issued[token].(ended := true) else issued[token]
  }

  function HistoryAfter(s: System, e: Event): map<Token, History> {
    match e
    case Login(subject, token, _) =>
      s.issued[token := History(subject, s.now, s.now, s.now, |ChangesAfter(s, e)|, false)]
    case Use(token) => Noted(s, token)
    case LogoutOne(token) =>
      if token in s.issued then s.issued[token := s.issued[token].(ended := true)] else s.issued
    case LogoutAll(token) =>
      (match Verified(s.store, s.now, token)
       case None => s.issued
       case Some(subject) => AllEnded(Noted(s, token), subject))
    case ChangePassword(token, correct) =>
      (match Verified(s.store, s.now, token)
       case None => s.issued
       case Some(subject) => if correct then AllEnded(Noted(s, token), subject) else Noted(s, token))
    case _ => s.issued
  }

  /** Whose account the event writes: a hash upgrade, an enable or disable, a correct password change. */
  function ChangedBy(s: System, e: Event): Option<Subject> {
    match e
    case Login(subject, _, upgradeHash) => if upgradeHash then Some(subject) else None
    case SetEnabled(subject, _) => Some(subject)
    case ChangePassword(token, correct) => if correct then Verified(s.store, s.now, token) else None
    case _ => None
  }

  function ChangesAfter(s: System, e: Event): seq<Subject> {
    match ChangedBy(s, e)
    case None => s.changes
    case Some(subject) => s.changes + [subject]
  }

  function Step(s: System, e: Event): System {
    if !Enabled(s, e) then s
    else System(if e.Wait? then s.now + e.ms else s.now, StoreAfter(s, e), HistoryAfter(s, e), ChangesAfter(s, e))
  }

  function Init(start: int, accounts: map<Subject, Account>): System {
    System(start, Store(map[], map[], accounts), map[], [])
  }

  function Exec(s: System, events: seq<Event>): System
    decreases |events|
  {
    if events == [] then s else Exec(Step(s, events[0]), events[1..])
  }

  // ----- the invariant

  /** A record agrees with its history, and its key lives exactly until it idles out or ends. */
  predicate RecordOk(s: System, token: Token)
    requires token in s.store.sessions
  {
    var key := s.store.sessions[token];
    && token in s.issued && key.Present?
    && key.value.subject == s.issued[token].subject
    && key.value.createdAt == s.issued[token].login
    && key.value.expiresAt == s.issued[token].login + LIFETIME_MS
    && key.value.lastSeenAt == s.issued[token].written
    && key.deadline == Earlier(s.issued[token].written + IDLE_MS, key.value.expiresAt)
    && s.issued[token].login <= s.issued[token].written <= s.issued[token].used <= s.now
    && s.issued[token].used < s.issued[token].written + REFRESH_MS
  }

  /** A live record is listed in its account's live set, which outlasts the record's twelve hours. */
  predicate Listed(s: System, token: Token)
    requires token in s.store.sessions
  {
    var key := s.store.sessions[token];
    key.LiveAt(s.now) ==>
      var set_ := IndexKey(s.store, key.value.subject);
      set_.Present? && token in set_.value && key.value.expiresAt <= set_.deadline
  }

  predicate Inv(s: System) {
    && (forall token :: token in s.store.sessions ==> RecordOk(s, token) && Listed(s, token))
  }

  lemma LoginKeepsInv(s: System, subject: Subject, token: Token, upgrade: bool)
    requires Inv(s)
    ensures Inv(Step(s, Login(subject, token, upgrade)))
  {
    var t := Step(s, Login(subject, token, upgrade));
    forall other | other in t.store.sessions
      ensures RecordOk(t, other) && Listed(t, other)
    {
      if other in s.store.sessions {
        assert RecordOk(s, other) && Listed(s, other);
      }
    }
  }

  lemma TouchKeepsInv(s: System, token: Token)
    requires Inv(s)
    ensures Inv(Step(s, Use(token)))
  {
    var t := Step(s, Use(token));
    forall other | other in t.store.sessions
      ensures RecordOk(t, other) && Listed(t, other)
    {
      assert RecordOk(s, other) && Listed(s, other);
    }
  }

  predicate SameTimes(before: map<Token, History>, after: map<Token, History>) {
    forall token :: token in before ==>
      token in after && after[token] == before[token].(ended := after[token].ended)
  }

  /** Deleting records, dropping a subject whose live records are gone, and changing accounts are harmless. */
  lemma ShrinkKeepsInv(s: System, t: System, gone: set<Subject>)
    requires Inv(s) && SameTimes(s.issued, t.issued) && s.now <= t.now
    requires t.store.sessions.Keys <= s.store.sessions.Keys
    requires forall token :: token in t.store.sessions ==> t.store.sessions[token] == s.store.sessions[token]
    requires t.store.index == s.store.index - gone
    requires forall token :: token in t.store.sessions && t.store.sessions[token].LiveAt(s.now) ==>
               t.store.sessions[token].value.subject !in gone
    ensures Inv(t)
  {
    forall token | token in t.store.sessions
      ensures RecordOk(t, token) && Listed(t, token)
    {
      assert RecordOk(s, token) && Listed(s, token);
    }
  }

  /** The account set holds every live record of its account, so deleting its members deletes them all. */
  lemma RevokeLeavesNone(s: System, subject: Subject, token: Token)
    requires Inv(s)
    requires var t := Revoked(s.store, s.now, subject);
             token in t.sessions && t.sessions[token].LiveAt(s.now)
    ensures Revoked(s.store, s.now, subject).sessions[token].value.subject != subject
  {
    assert RecordOk(s, token) && Listed(s, token);
  }

  lemma RevokeKeepsInv(s: System, t: System, subject: Subject)
    requires Inv(s) && SameTimes(s.issued, t.issued) && t.now == s.now
    requires t.store == Revoked(s.store, s.now, subject).(accounts := t.store.accounts)
    ensures Inv(t)
  {
    forall token | token in t.store.sessions && t.store.sessions[token].LiveAt(s.now)
      ensures t.store.sessions[token].value.subject !in {subject}
    {
      RevokeLeavesNone(s, subject, token);
    }
    ShrinkKeepsInv(s, t, {subject});
  }

  lemma StepKeepsInv(s: System, e: Event)
    requires Inv(s)
    ensures Inv(Step(s, e))
  {
    match e {
      case Wait(_) => ShrinkKeepsInv(s, Step(s, e), {});
      case Login(subject, token, upgrade) => LoginKeepsInv(s, subject, token, upgrade);
      case Use(token) => TouchKeepsInv(s, token);
      case LogoutOne(token) => ShrinkKeepsInv(s, Step(s, e), {});
      case LogoutAll(token) =>
        TouchKeepsInv(s, token);
        var used := Step(s, Use(token));
        if Verified(s.store, s.now, token).Some? {
          RevokeKeepsInv(used, Step(s, e), Verified(s.store, s.now, token).value);
        }
      case ChangePassword(token, correct) =>
        TouchKeepsInv(s, token);
        var used := Step(s, Use(token));
        if Verified(s.store, s.now, token).Some? && correct {
          RevokeKeepsInv(used, Step(s, e), Verified(s.store, s.now, token).value);
        }
      case SetEnabled(subject, enabled) => if Enabled(s, e) { ShrinkKeepsInv(s, Step(s, e), {}); }
    }
  }

  lemma {:induction false} ExecKeepsInv(s: System, events: seq<Event>)
    requires Inv(s)
    ensures Inv(Exec(s, events))
    decreases |events|
  {
    if events != [] {
      StepKeepsInv(s, events[0]);
      ExecKeepsInv(Step(s, events[0]), events[1..]);
    }
  }

  // ----- which tokens are accepted

  /** No account write since the token's login concerned its account. */
  predicate Unchanged(s: System, token: Token)
    requires token in s.issued
  {
    forall k :: s.issued[token].seen <= k < |s.changes| ==> s.changes[k] != s.issued[token].subject
  }

  /** The record of a token is there until the session is ended, and its version tells whether the account changed. */
  predicate TokenOk(s: System, token: Token)
    requires token in s.issued
  {
    var h := s.issued[token];
    && h.subject in s.store.accounts && h.seen <= |s.changes|
    && RecordUntilEnded(s, token)
    && (token in s.store.sessions && s.store.sessions[token].Present? ==>
          var version := s.store.sessions[token].value.credentialVersion;
          && version <= s.store.accounts[h.subject].credentialVersion
          && (version == s.store.accounts[h.subject].credentialVersion <==> Unchanged(s, token)))
  }

  /** An account set lists tokens of its account alone. */
  predicate OwnTokens(s: System, subject: Subject)
    requires subject in s.store.index
  {
    s.store.index[subject].Present? ==>
      forall token :: token in s.store.index[subject].value ==>
        token in s.issued && s.issued[token].subject == subject
  }

  predicate Told(s: System) {
    && (forall token :: token in s.issued ==> TokenOk(s, token))
    && (forall subject :: subject in s.store.index ==> OwnTokens(s, subject))
  }

  lemma StepKeepsOwnTokens(s: System, e: Event, subject: Subject)
    requires Told(s) && subject in Step(s, e).store.index
    ensures OwnTokens(Step(s, e), subject)
  {
    if subject in s.store.index {
      assert OwnTokens(s, subject);
    }
  }

  /** A version moves with the account's own writes alone, and by one. */
  lemma VersionsMove(s: System, e: Event, subject: Subject)
    requires subject in s.store.accounts
    ensures var t := Step(s, e);
            && subject in t.store.accounts
            && t.store.accounts[subject].credentialVersion == s.store.accounts[subject].credentialVersion
               + if Enabled(s, e) && ChangedBy(s, e) == Some(subject) then 1 else 0
  {
  }

  /** A token keeps its subject and its place among the changes. */
  lemma IssuedStays(s: System, e: Event, token: Token)
    requires token in s.issued
    ensures var t := Step(s, e);
            && token in t.issued && t.issued[token].subject == s.issued[token].subject
            && t.issued[token].seen == s.issued[token].seen
  {
  }

  lemma UnchangedMoves(s: System, e: Event, token: Token)
    requires token in s.issued && s.issued[token].seen <= |s.changes|
    ensures token in Step(s, e).issued
    ensures Unchanged(Step(s, e), token) <==>
              Unchanged(s, token) && !(Enabled(s, e) && ChangedBy(s, e) == Some(s.issued[token].subject))
  {
    IssuedStays(s, e, token);
    var t := Step(s, e);
    if Enabled(s, e) && ChangedBy(s, e).Some? {
      assert t.changes[|s.changes|] == ChangedBy(s, e).value;
    }
    assert t.changes[..|s.changes|] == s.changes;
    forall k | 0 <= k < |s.changes|
      ensures t.changes[k] == s.changes[k]
    {
    }
  }

  /** No step changes the version in a record. */
  lemma RecordVersionStays(s: System, e: Event, token: Token)
    requires token in s.issued
    ensures var t := Step(s, e);
            token in t.store.sessions && t.store.sessions[token].Present? ==>
              && token in s.store.sessions && s.store.sessions[token].Present?
              && t.store.sessions[token].value.credentialVersion == s.store.sessions[token].value.credentialVersion
  {
  }

  /** A token whose session has not been ended keeps its record, and an ended one is not live. */
  predicate RecordUntilEnded(s: System, token: Token)
    requires token in s.issued
  {
    if s.issued[token].ended then Dead(s, token) else token in s.store.sessions
  }

  lemma EndStays(s: System, e: Event, token: Token)
    requires token in s.issued && s.issued[token].ended
    ensures token in Step(s, e).issued && Step(s, e).issued[token].ended
  {
  }

  lemma RevokedOnlyOwn(s: System, token: Token, subject: Subject)
    requires token in s.issued && (subject in s.store.index ==> OwnTokens(s, subject))
    ensures token in s.store.sessions && s.issued[token].subject != subject ==>
              token in Revoked(s.store, s.now, subject).sessions
  {
  }

  lemma EndingIsKept(s: System, e: Event, token: Token)
    requires Inv(s) && Told(s) && token in s.issued && Enabled(s, e)
    ensures token in Step(s, e).issued && RecordUntilEnded(Step(s, e), token)
  {
    assert TokenOk(s, token);
    if s.issued[token].ended {
      StepKeepsDead(s, e, token);
      EndStays(s, e, token);
    } else if (e.LogoutAll? || e.ChangePassword?) && Verified(s.store, s.now, e.token).Some? {
      var subject := Verified(s.store, s.now, e.token).value;
      RevokedOnlyOwn(s, token, subject);
      if RevokesAll(s, e, subject) && s.issued[token].subject == subject {
        RevocationKills(s, e, subject, token);
      }
    }
  }

  lemma StepKeepsTokenOk(s: System, e: Event, token: Token)
    requires Inv(s) && Told(s) && token in s.issued
    ensures token in Step(s, e).issued && TokenOk(Step(s, e), token)
  {
    assert TokenOk(s, token);
    VersionsMove(s, e, s.issued[token].subject);
    UnchangedMoves(s, e, token);
    RecordVersionStays(s, e, token);
    IssuedStays(s, e, token);
    if Enabled(s, e) {
      EndingIsKept(s, e, token);
    }
  }

  lemma StepKeepsTold(s: System, e: Event)
    requires Inv(s) && Told(s)
    ensures Told(Step(s, e))
  {
    var t := Step(s, e);
    forall token | token in t.issued
      ensures TokenOk(t, token)
    {
      if token in s.issued {
        StepKeepsTokenOk(s, e, token);
      }
    }
    forall subject | subject in t.store.index
      ensures OwnTokens(t, subject)
    {
      StepKeepsOwnTokens(s, e, subject);
    }
  }

  lemma {:induction false} ExecKeepsTold(s: System, events: seq<Event>)
    requires Inv(s) && Told(s)
    ensures Told(Exec(s, events))
    decreases |events|
  {
    if events != [] {
      StepKeepsInv(s, events[0]);
      StepKeepsTold(s, events[0]);
      ExecKeepsTold(Step(s, events[0]), events[1..]);
    }
  }

  // ----- the main results

  /**
   In every reachable state a token is accepted if and only if it was issued, its session was not
   ended, its login is under twelve hours and its last record write under thirty minutes old, its
   account is enabled, and no hash upgrade, password change, enable or disable has touched that
   account since the login. It is then accepted as the account that logged in.
   */
  lemma AcceptedIff(start: int, accounts: map<Subject, Account>, events: seq<Event>, token: Token)
    ensures var s := Exec(Init(start, accounts), events);
            Verified(s.store, s.now, token).Some? <==>
              && token in s.issued && !s.issued[token].ended
              && s.now < s.issued[token].login + 12 * 60 * 60 * 1000
              && s.now < s.issued[token].written + 30 * 60 * 1000
              && s.issued[token].subject in s.store.accounts && s.store.accounts[s.issued[token].subject].enabled
              && forall k :: s.issued[token].seen <= k < |s.changes| ==> s.changes[k] != s.issued[token].subject
    ensures var s := Exec(Init(start, accounts), events);
            Verified(s.store, s.now, token).Some? ==>
              Verified(s.store, s.now, token).value == s.issued[token].subject
  {
    var s := Exec(Init(start, accounts), events);
    ExecKeepsInv(Init(start, accounts), events);
    ExecKeepsTold(Init(start, accounts), events);
    if token in s.store.sessions {
      assert RecordOk(s, token) && Listed(s, token);
    }
    if token in s.issued {
      assert TokenOk(s, token);
    }
  }

  /** Nothing but a switch enables or disables an account, and it is the account's own. */
  lemma EnabledBySwitchAlone(s: System, e: Event, subject: Subject)
    requires subject in s.store.accounts
    ensures var t := Step(s, e);
            && subject in t.store.accounts
            && t.store.accounts[subject].enabled ==
                 if e.SetEnabled? && e.subject == subject then e.enabled else s.store.accounts[subject].enabled
  {
  }

  /** An account write of `subject`: an enable or disable, a login that upgrades its hash, a correct password change. */
  predicate WritesAccount(s: System, e: Event, subject: Subject) {
    match e
    case SetEnabled(other, _) => other == subject && subject in s.store.accounts
    case Login(other, token, upgradeHash) =>
      && other == subject && upgradeHash && token !in s.issued
      && subject in s.store.accounts && s.store.accounts[subject].enabled
    case ChangePassword(token, correct) => correct && Verified(s.store, s.now, token) == Some(subject)
    case _ => false
  }

  lemma {:induction false} ChangedStays(s: System, events: seq<Event>, token: Token)
    requires token in s.issued && s.issued[token].seen <= |s.changes| && !Unchanged(s, token)
    ensures token in Exec(s, events).issued && !Unchanged(Exec(s, events), token)
    decreases |events|
  {
    if events != [] {
      UnchangedMoves(s, events[0], token);
      IssuedStays(s, events[0], token);
      ChangedStays(Step(s, events[0]), events[1..], token);
    }
  }

  lemma {:induction false} ExecConcat(s: System, first: seq<Event>, second: seq<Event>)
    ensures Exec(s, first + second) == Exec(Exec(s, first), second)
    decreases |first|
  {
    if first == [] {
      assert first + second == second;
    } else {
      assert (first + second)[1..] == first[1..] + second;
      ExecConcat(Step(s, first[0]), first[1..], second);
    }
  }

  /** Once an account is written, no token issued to it before is accepted at any later point of any run. */
  lemma AccountWriteIsFinal(start: int, accounts: map<Subject, Account>, before: seq<Event>, e: Event,
                            after: seq<Event>, subject: Subject, token: Token)
    requires var s := Exec(Init(start, accounts), before);
             WritesAccount(s, e, subject) && token in s.issued && s.issued[token].subject == subject
    ensures var s := Exec(Step(Exec(Init(start, accounts), before), e), after);
            Verified(s.store, s.now, token) == None
  {
    var s := Exec(Init(start, accounts), before);
    ExecKeepsInv(Init(start, accounts), before);
    ExecKeepsTold(Init(start, accounts), before);
    assert TokenOk(s, token);
    UnchangedMoves(s, e, token);
    IssuedStays(s, e, token);
    ChangedStays(Step(s, e), after, token);
    ExecConcat(Init(start, accounts), before, [e] + after);
    assert ([e] + after)[1..] == after;
    AcceptedIff(start, accounts, before + ([e] + after), token);
  }

  /** In every reachable state each unexpired record is a member of its account's unexpired set. */
  lemma IndexComplete(start: int, accounts: map<Subject, Account>, events: seq<Event>, token: Token)
    requires var s := Exec(Init(start, accounts), events);
             SessionKey(s.store, token).LiveAt(s.now)
    ensures var s := Exec(Init(start, accounts), events);
            var set_ := IndexKey(s.store, SessionKey(s.store, token).value.subject);
            set_.LiveAt(s.now) && token in set_.value
  {
    var s := Exec(Init(start, accounts), events);
    ExecKeepsInv(Init(start, accounts), events);
    assert RecordOk(s, token) && Listed(s, token);
  }

  /** A token that was issued and is no longer live. */
  predicate Dead(s: System, token: Token) {
    token in s.issued && !SessionKey(s.store, token).LiveAt(s.now)
  }

  lemma StepKeepsDead(s: System, e: Event, token: Token)
    requires Dead(s, token)
    ensures Dead(Step(s, e), token)
  {
  }

  lemma {:induction false} ExecKeepsDead(s: System, events: seq<Event>, token: Token)
    requires Dead(s, token)
    ensures Dead(Exec(s, events), token)
    decreases |events|
  {
    if events != [] {
      StepKeepsDead(s, events[0], token);
      ExecKeepsDead(Step(s, events[0]), events[1..], token);
    }
  }

  /** An all-device logout or a password change made with an accepted token of `subject`. */
  predicate RevokesAll(s: System, e: Event, subject: Subject) {
    match e
    case LogoutAll(token) => Verified(s.store, s.now, token) == Some(subject)
    case ChangePassword(token, correct) => correct && Verified(s.store, s.now, token) == Some(subject)
    case _ => false
  }

  lemma RevocationKills(s: System, e: Event, subject: Subject, token: Token)
    requires Inv(s) && RevokesAll(s, e, subject)
    requires token in s.issued && s.issued[token].subject == subject
    ensures Dead(Step(s, e), token)
  {
    var presented := e.token;
    TouchKeepsInv(s, presented);
    var used := Step(s, Use(presented));
    var t := Step(s, e);
    if token in t.store.sessions && t.store.sessions[token].LiveAt(t.now) {
      assert RecordOk(used, token);
      RevokeLeavesNone(used, subject, token);
    }
  }

  /**
   After an all-device logout or a password change, no token issued to that subject before it is
   accepted at any later point of any continuation of the run.
   */
  lemma RevocationIsFinal(start: int, accounts: map<Subject, Account>, before: seq<Event>, e: Event, after: seq<Event>,
                          subject: Subject, token: Token)
    requires var s := Exec(Init(start, accounts), before);
             RevokesAll(s, e, subject) && token in s.issued && s.issued[token].subject == subject
    ensures var s := Exec(Step(Exec(Init(start, accounts), before), e), after);
            Verified(s.store, s.now, token) == None
  {
    var s := Exec(Init(start, accounts), before);
    ExecKeepsInv(Init(start, accounts), before);
    RevocationKills(s, e, subject, token);
    ExecKeepsDead(Step(s, e), after, token);
  }

  /** An accepted token belongs to a login under twelve hours old and a record write under thirty minutes old. */
  lemma AcceptedIsRecent(start: int, accounts: map<Subject, Account>, events: seq<Event>, token: Token)
    requires var s := Exec(Init(start, accounts), events);
             Verified(s.store, s.now, token).Some?
    ensures var s := Exec(Init(start, accounts), events);
            && token in s.issued
            && Verified(s.store, s.now, token) == Some(s.issued[token].subject)
            && s.issued[token].login <= s.now < s.issued[token].login + LIFETIME_MS
            && s.issued[token].written <= s.now < s.issued[token].written + IDLE_MS
  {
    ExecKeepsInv(Init(start, accounts), events);
    var s := Exec(Init(start, accounts), events);
    assert RecordOk(s, token);
  }

  /** A session that was never deleted, was used at most `gap` ago and is within its twelve hours is alive. */
  predicate SurvivesGap(s: System, gap: int) {
    forall token :: token in s.store.sessions && token in s.issued
      && s.now - s.issued[token].used <= gap && s.now < s.issued[token].login + LIFETIME_MS
      ==> SessionKey(s.store, token).LiveAt(s.now)
  }

  lemma UseBeforeRefreshWasted(gap: int) returns (events: seq<Event>)
    requires IDLE_MS - REFRESH_MS < gap
    ensures !SurvivesGap(Exec(Init(0, map["owner" := Account(true, 1)]), events), gap)
  {
    var s0 := Init(0, map["owner" := Account(true, 1)]);
    var login, early, use, idle :=
      Login("owner", "t", false), Wait(REFRESH_MS - 1), Use("t"), Wait(IDLE_MS - REFRESH_MS + 1);
    events := [login, early, use, idle];
    var s1 := Step(s0, login);
    var s2 := Step(s1, early);
    var s3 := Step(s2, use);
    var s4 := Step(s3, idle);
    assert events[1..] == [early, use, idle] && [early, use, idle][1..] == [use, idle] && [use, idle][1..] == [idle];
    assert Exec(s3, [idle]) == s4;
    assert Exec(s2, [use, idle]) == Exec(s3, [idle]);
    assert Exec(s1, [early, use, idle]) == Exec(s2, [use, idle]);
    assert s4.issued["t"].used == REFRESH_MS - 1 && s4.now == IDLE_MS;
    assert s4.store.sessions["t"].deadline == IDLE_MS;
  }

  /**
   Although a use within five minutes of the last write extends nothing, a session that is used at
   least every `gap` milliseconds never idles out before its twelve hours, in any run, exactly when
   the gap is at most twenty-five minutes.
   */
  lemma KeptAliveIffGapAtMost25Minutes(gap: int)
    ensures (forall start, accounts, events :: SurvivesGap(Exec(Init(start, accounts), events), gap))
            <==> gap <= 25 * 60 * 1000
  {
    if gap <= IDLE_MS - REFRESH_MS {
      forall start, accounts, events
        ensures SurvivesGap(Exec(Init(start, accounts), events), gap)
      {
        ExecKeepsInv(Init(start, accounts), events);
        var s := Exec(Init(start, accounts), events);
        forall token | token in s.store.sessions && token in s.issued && s.now - s.issued[token].used <= gap
                       && s.now < s.issued[token].login + LIFETIME_MS
          ensures SessionKey(s.store, token).LiveAt(s.now)
        {
          assert RecordOk(s, token);
        }
      }
    } else {
      var events := UseBeforeRefreshWasted(gap);
    }
  }
}
