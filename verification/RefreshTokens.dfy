/** Refresh tokens: rotation, families and their revocation. Requests are serialised transactions;
    a decoded token is its identifier and its subject. Times are milliseconds. */
module RefreshTokens {
  import opened Options

  type Jti = nat
  type Family = nat
  type UserId = nat

  datatype Row = Row(family: Family, user: UserId, expires: int, used: Option<int>, revoked: Option<int>)

  type Rows = map<Jti, Row>

  datatype Claims = Claims(jti: Jti, subject: UserId)

  datatype Outcome = Rotated(user: UserId) | Unknown | SignedOut | Reused(user: UserId) | Inactive

  const GRACE: int := 10_000
  const DAY: int := 86_400_000

  // ---------------------------------------------------------------- the table after each request

  function RevokedFamily(rows: Rows, family: Family, now: int): Rows {
    map jti | jti in rows ::
      if rows[jti].family == family && rows[jti].revoked.None? then rows[jti].(revoked := Some(now)) else rows[jti]
  }

  function Purged(rows: Rows, now: int): Rows {
    map jti | jti in rows && rows[jti].expires >= now - DAY :: rows[jti]
  }

  function Judged(rows: Rows, claims: Claims, active: bool, now: int): Outcome {
    if claims.jti !in rows || rows[claims.jti].user != claims.subject then Unknown
    else
      var row := rows[claims.jti];
      if row.revoked.Some? then SignedOut
      else if row.used.Some? && now - row.used.value > GRACE then Reused(row.user)
      else if !active then Inactive
      else Rotated(row.user)
  }

  function Refreshed(rows: Rows, claims: Claims, active: bool, next: Jti, expires: int, now: int): Rows {
    var outcome := Judged(rows, claims, active, now);
    if outcome.Unknown? || outcome.SignedOut? then rows
    else
      var row := rows[claims.jti];
      if outcome.Rotated? then
        var used := if row.used.None? then row.(used := Some(now)) else row;
        rows[claims.jti := used][next := Row(row.family, row.user, expires, None, None)]
      else RevokedFamily(rows, row.family, now)
  }

  function LoggedOut(rows: Rows, claims: Option<Claims>, now: int): Rows {
    if claims.None? || claims.value.jti !in rows then rows
    else RevokedFamily(rows, rows[claims.value.jti].family, now)
  }

  /** The table of refresh tokens. */
  class TokenTable {
    var rows: Rows

    method IssueTokens(user: UserId, family: Family, jti: Jti, expires: int)
      modifies this
      ensures rows == old(rows)[jti := Row(family, user, expires, None, None)]
    {
      rows := rows[jti := Row(family, user, expires, None, None)];
    }

    method RevokeFamily(family: Family, now: int)
      modifies this
      ensures rows == RevokedFamily(old(rows), family, now)
      ensures rows.Keys == old(rows).Keys
      ensures forall jti :: jti in rows ==>
                rows[jti] == old(rows)[jti]
                || (old(rows)[jti].family == family && old(rows)[jti].revoked.None?
                    && rows[jti] == old(rows)[jti].(revoked := Some(now)))
      ensures forall jti :: jti in rows && rows[jti].family == family ==> rows[jti].revoked.Some?
    {
      rows := map jti | jti in rows ::
        if rows[jti].family == family && rows[jti].revoked.None? then rows[jti].(revoked := Some(now)) else rows[jti];
    }

    method RotateRefreshToken(claims: Claims, active: bool, next: Jti, expires: int, now: int)
      returns (outcome: Outcome)
      modifies this
      ensures outcome == Judged(old(rows), claims, active, now)
      ensures rows == Refreshed(old(rows), claims, active, next, expires, now)
      // which outcome
      ensures outcome == Unknown <==> claims.jti !in old(rows) || old(rows)[claims.jti].user != claims.subject
      ensures outcome != Unknown ==>
                var row := old(rows)[claims.jti];
                && (outcome == SignedOut <==> row.revoked != None)
                && (outcome == Reused(row.user) <==>
                      row.revoked == None && row.used.Some? && now - row.used.value > 10_000)
                && (outcome == Inactive <==>
                      row.revoked == None && (row.used.Some? ==> now - row.used.value <= 10_000) && !active)
                && (outcome == Rotated(row.user) <==>
                      row.revoked == None && (row.used.Some? ==> now - row.used.value <= 10_000) && active)
      // what becomes of the table: nothing, the end of the family, or one new token of the family
      ensures outcome == Unknown || outcome == SignedOut ==> rows == old(rows)
      ensures outcome.Reused? || outcome == Inactive ==>
                rows.Keys == old(rows).Keys
                && forall jti :: jti in rows ==>
                     rows[jti] == if old(rows)[jti].family == old(rows)[claims.jti].family
                                     && old(rows)[jti].revoked == None
                                  then old(rows)[jti].(revoked := Some(now)) else old(rows)[jti]
      ensures outcome.Rotated? ==>
                && rows.Keys == old(rows).Keys + {next}
                && rows[next] == Row(old(rows)[claims.jti].family, old(rows)[claims.jti].user, expires, None, None)
                && forall jti :: jti in old(rows) && jti != next ==>
                     rows[jti] == if jti == claims.jti && old(rows)[jti].used == None
                                  then old(rows)[jti].(used := Some(now)) else old(rows)[jti]
    {
      if claims.jti !in rows || rows[claims.jti].user != claims.subject {
        return Unknown;
      }
      var row := rows[claims.jti];
      if row.revoked.Some? {
        return SignedOut;
      }
      if row.used.Some? && now - row.used.value > GRACE {
        RevokeFamily(row.family, now);
        return Reused(row.user);
      }
      if !active {
        RevokeFamily(row.family, now);
        return Inactive;
      }
      if row.used.None? {
        rows := rows[claims.jti := row.(used := Some(now))];
      }
      IssueTokens(row.user, row.family, next, expires);
      assert row.used.Some? ==> old(rows)[claims.jti := row] == old(rows);
      return Rotated(row.user);
    }

    method RevokeRefreshToken(claims: Option<Claims>, now: int) returns (user: Option<UserId>)
      modifies this
      ensures rows == LoggedOut(old(rows), claims, now)
      ensures user.Some? <==> claims.Some? && claims.value.jti in old(rows)
      ensures user.Some? ==> user.value == old(rows)[claims.value.jti].user
      ensures rows.Keys == old(rows).Keys
      ensures forall jti :: jti in rows ==>
                rows[jti] == if user.Some? && old(rows)[jti].revoked == None
                                && old(rows)[jti].family == old(rows)[claims.value.jti].family
                             then old(rows)[jti].(revoked := Some(now)) else old(rows)[jti]
    {
      if claims.None? || claims.value.jti !in rows {
        return None;
      }
      var row := rows[claims.value.jti];
      RevokeFamily(row.family, now);
      return Some(row.user);
    }

    method PurgeExpiredRefreshTokens(now: int)
      modifies this
      ensures rows == Purged(old(rows), now)
      ensures forall jti :: jti in old(rows) ==>
                if jti in rows then rows[jti] == old(rows)[jti] else old(rows)[jti].expires < now - 86_400_000
      ensures forall jti :: jti in rows ==> jti in old(rows) && rows[jti].expires >= now - 86_400_000
    {
      rows := map jti | jti in rows && rows[jti].expires >= now - DAY :: rows[jti];
    }
  }

  // ---------------------------------------------------------------- runs

  datatype Event =
    | Login(user: UserId, family: Family, jti: Jti, expires: int, now: int)
    | Refresh(claims: Claims, active: bool, jti: Jti, expires: int, now: int)
    | Logout(token: Option<Claims>, now: int)

  /** `jtis` and `families` are the identifiers handed out so far; they are never handed out again. */
  datatype State = State(rows: Rows, jtis: set<Jti>, families: set<Family>, clock: int)

  const START := State(map[], {}, {}, 0)

  predicate CanHappen(s: State, e: Event) {
    && e.now >= s.clock
    && (e.Login? ==> e.jti !in s.jtis && e.family !in s.families)
    && (e.Refresh? ==> e.jti !in s.jtis)
  }

  function After(s: State, e: Event): State {
    match e
    case Login(user, family, jti, expires, now) =>
      State(Purged(s.rows, now)[jti := Row(family, user, expires, None, None)], s.jtis + {jti},
            s.families + {family}, now)
    case Refresh(claims, active, jti, expires, now) =>
      State(Refreshed(s.rows, claims, active, jti, expires, now), s.jtis + {jti}, s.families, now)
    case Logout(token, now) => State(LoggedOut(s.rows, token, now), s.jtis, s.families, now)
  }

  ghost predicate Run(states: seq<State>, events: seq<Event>) {
    && |states| == |events| + 1 && states[0] == START
    && forall i :: 0 <= i < |events| ==> CanHappen(states[i], events[i]) && states[i + 1] == After(states[i], events[i])
  }

  /** The request at step `i` is a refresh of `jti` that succeeds. */
  predicate AcceptedAt(s: State, e: Event, jti: Jti) {
    e.Refresh? && e.claims.jti == jti && Judged(s.rows, e.claims, e.active, e.now).Rotated?
  }

  /** When a token is accepted, and what is new afterwards. */
  lemma AcceptedMeans(s: State, e: Event, jti: Jti)
    ensures AcceptedAt(s, e, jti) <==>
            && e.Refresh? && e.claims.jti == jti && jti in s.rows && s.rows[jti].user == e.claims.subject && e.active
            && s.rows[jti].revoked == None && (s.rows[jti].used.Some? ==> e.now - s.rows[jti].used.value <= 10_000)
    ensures AcceptedAt(s, e, jti) && CanHappen(s, e) && Inv(s) ==>
              var rows := After(s, e).rows;
              && e.jti !in s.rows && rows.Keys == s.rows.Keys + {e.jti}
              && rows[e.jti] == Row(s.rows[jti].family, s.rows[jti].user, e.expires, None, None)
              && (forall other :: other in s.rows && other != jti ==> rows[other] == s.rows[other])
              && var first := if s.rows[jti].used.Some? then s.rows[jti].used.value else e.now;
                 rows[jti] == s.rows[jti].(used := Some(first))
  {
  }

  /** A login drops the tokens that expired more than a day ago and adds one of a new family. */
  lemma LoginMeans(s: State, e: Event)
    requires e.Login? && CanHappen(s, e) && Inv(s)
    ensures var rows := After(s, e).rows;
            && e.jti !in s.rows && rows[e.jti] == Row(e.family, e.user, e.expires, None, None)
            && (forall jti :: jti in rows && jti != e.jti <==>
                  jti in s.rows && s.rows[jti].expires >= e.now - 86_400_000)
            && forall jti :: jti in rows && jti != e.jti ==> rows[jti] == s.rows[jti] && rows[jti].family != e.family
  {
  }

  /** Which requests end a family: a second use after more than ten seconds, a refresh by a deactivated
      account, and a logout. */
  lemma RevokesMeans(s: State, e: Event, family: Family)
    ensures Revokes(s, e, family) <==>
            match e
            case Login(_, _, _, _, _) => false
            case Refresh(claims, active, _, _, now) =>
              && claims.jti in s.rows && s.rows[claims.jti].user == claims.subject
              && s.rows[claims.jti].family == family && s.rows[claims.jti].revoked == None
              && (!active || (s.rows[claims.jti].used.Some? && now - s.rows[claims.jti].used.value > 10_000))
            case Logout(token, _) =>
              token.Some? && token.value.jti in s.rows && s.rows[token.value.jti].family == family
  {
  }

  // ---------------------------------------------------------------- families are revoked as a whole

  predicate SameFate(a: Row, b: Row) {
    a.family == b.family ==> a.user == b.user && (a.revoked.Some? <==> b.revoked.Some?)
  }

  predicate Inv(s: State) {
    && (forall jti :: jti in s.rows ==> jti in s.jtis && s.rows[jti].family in s.families)
    && (forall jti :: jti in s.rows && s.rows[jti].used.Some? ==> s.rows[jti].used.value <= s.clock)
    && (forall a, b :: a in s.rows && b in s.rows ==> SameFate(s.rows[a], s.rows[b]))
  }

  lemma RevocationKeepsInv(s: State, family: Family, now: int)
    requires Inv(s) && now >= s.clock
    ensures Inv(s.(rows := RevokedFamily(s.rows, family, now), clock := now))
  {
    var rows := RevokedFamily(s.rows, family, now);
    forall a, b | a in rows && b in rows ensures SameFate(rows[a], rows[b]) {
      assert SameFate(s.rows[a], s.rows[b]);
    }
  }

  lemma RotationKeepsInv(s: State, e: Event)
    requires Inv(s) && CanHappen(s, e) && e.Refresh? && Judged(s.rows, e.claims, e.active, e.now).Rotated?
    ensures Inv(After(s, e))
  {
    var row, rows := s.rows[e.claims.jti], After(s, e).rows;
    forall a, b | a in rows && b in rows ensures SameFate(rows[a], rows[b]) {
      assert a in s.rows ==> SameFate(s.rows[a], row);
      assert b in s.rows ==> SameFate(s.rows[b], row);
      assert a in s.rows && b in s.rows ==> SameFate(s.rows[a], s.rows[b]);
    }
  }

  lemma LoginKeepsInv(s: State, e: Event)
    requires Inv(s) && CanHappen(s, e) && e.Login?
    ensures Inv(After(s, e))
  {
    var rows := After(s, e).rows;
    forall a, b | a in rows && b in rows ensures SameFate(rows[a], rows[b]) {
      assert a in s.rows && b in s.rows ==> SameFate(s.rows[a], s.rows[b]);
    }
  }

  lemma StepKeepsInv(s: State, e: Event)
    requires Inv(s) && CanHappen(s, e)
    ensures Inv(After(s, e))
  {
    match e
    case Login(_, _, _, _, _) => LoginKeepsInv(s, e);
    case Refresh(claims, active, _, _, now) =>
      if Judged(s.rows, claims, active, now).Rotated? {
        RotationKeepsInv(s, e);
      } else if claims.jti in s.rows {
        RevocationKeepsInv(s, s.rows[claims.jti].family, now);
      }
    case Logout(token, now) =>
      if token.Some? && token.value.jti in s.rows {
        RevocationKeepsInv(s, s.rows[token.value.jti].family, now);
      }
  }

  lemma {:induction false} ReachableInv(states: seq<State>, events: seq<Event>, i: nat)
    requires Run(states, events) && i <= |events|
    ensures Inv(states[i])
  {
    if i > 0 {
      ReachableInv(states, events, i - 1);
      StepKeepsInv(states[i - 1], events[i - 1]);
    }
  }

  /** Presenting a revoked token does not revoke its family again, and need not: in every reachable
      state the tokens of a family belong to one user and are either all revoked or none of them. */
  lemma FamiliesShareTheirFate(states: seq<State>, events: seq<Event>, i: nat, a: Jti, b: Jti)
    requires Run(states, events) && i <= |events| && a in states[i].rows && b in states[i].rows
    requires states[i].rows[a].family == states[i].rows[b].family
    ensures states[i].rows[a].user == states[i].rows[b].user
    ensures states[i].rows[a].revoked.Some? <==> states[i].rows[b].revoked.Some?
  {
    ReachableInv(states, events, i);
    assert SameFate(states[i].rows[a], states[i].rows[b]);
  }

  // ---------------------------------------------------------------- a revoked family stays revoked

  /** The family has been handed out and every token left of it is revoked. */
  predicate Dead(s: State, family: Family) {
    family in s.families && forall jti :: jti in s.rows && s.rows[jti].family == family ==> s.rows[jti].revoked.Some?
  }

  function Members(s: State, family: Family): set<Jti> { set jti | jti in s.rows && s.rows[jti].family == family }

  lemma DeadStaysDead(s: State, e: Event, family: Family)
    requires Inv(s) && CanHappen(s, e) && Dead(s, family)
    ensures Dead(After(s, e), family) && Members(After(s, e), family) <= Members(s, family)
  {
  }

  /** The requests that revoke: a late second use, a refresh of a deactivated account, a logout. */
  predicate Revokes(s: State, e: Event, family: Family) {
    match e
    case Login(_, _, _, _, _) => false
    case Refresh(claims, active, _, _, now) =>
      var outcome := Judged(s.rows, claims, active, now);
      (outcome.Reused? || outcome.Inactive?) && s.rows[claims.jti].family == family
    case Logout(token, _) => token.Some? && token.value.jti in s.rows && s.rows[token.value.jti].family == family
  }

  lemma RevocationKills(s: State, e: Event, family: Family)
    requires Inv(s) && CanHappen(s, e) && Revokes(s, e, family)
    ensures Dead(After(s, e), family) && Members(After(s, e), family) == Members(s, family)
  {
  }

  lemma {:induction false} DeadFrom(states: seq<State>, events: seq<Event>, i: nat, j: nat, family: Family)
    requires Run(states, events) && i <= j <= |events| && Dead(states[i], family)
    ensures Dead(states[j], family) && Members(states[j], family) <= Members(states[i], family)
  {
    if i < j {
      DeadFrom(states, events, i, j - 1, family);
      ReachableInv(states, events, j - 1);
      DeadStaysDead(states[j - 1], events[j - 1], family);
    }
  }

  /** Once a family is revoked, no token of it is accepted again and no token is added to it. */
  lemma RevokedFamilyIsOver(states: seq<State>, events: seq<Event>, i: nat, j: nat, family: Family, jti: Jti)
    requires Run(states, events) && i < j < |events| && Revokes(states[i], events[i], family)
    requires jti in states[j].rows && states[j].rows[jti].family == family
    ensures !AcceptedAt(states[j], events[j], jti)
    ensures jti in Members(states[i], family)
  {
    ReachableInv(states, events, i);
    RevocationKills(states[i], events[i], family);
    DeadFrom(states, events, i + 1, j, family);
    assert jti in Members(states[j], family);
  }

  // ---------------------------------------------------------------- the grace period

  /** The token was first used at `first`; what is left of it remembers that. */
  predicate UsedAt(s: State, claims: Claims, first: int) {
    claims.jti in s.jtis
    && (claims.jti in s.rows ==> s.rows[claims.jti].used == Some(first) && s.rows[claims.jti].user == claims.subject)
  }

  lemma UseIsRemembered(s: State, e: Event, claims: Claims, first: int)
    requires Inv(s) && CanHappen(s, e) && UsedAt(s, claims, first)
    ensures UsedAt(After(s, e), claims, first)
  {
  }

  lemma {:induction false} UsedFrom(states: seq<State>, events: seq<Event>, i: nat, j: nat, claims: Claims, first: int)
    requires Run(states, events) && i <= j <= |events| && UsedAt(states[i], claims, first)
    ensures UsedAt(states[j], claims, first)
  {
    if i < j {
      UsedFrom(states, events, i, j - 1, claims, first);
      ReachableInv(states, events, j - 1);
      UseIsRemembered(states[j - 1], events[j - 1], claims, first);
    }
  }

  /** When a token was used for the first time, seen from the step that accepts it. */
  function FirstUse(s: State, e: Event): int
    requires e.Refresh? && AcceptedAt(s, e, e.claims.jti)
  {
    var row := s.rows[e.claims.jti];
    if row.used.Some? then row.used.value else e.now
  }

  lemma AcceptanceRecordsUse(s: State, e: Event)
    requires Inv(s) && CanHappen(s, e) && e.Refresh? && AcceptedAt(s, e, e.claims.jti)
    ensures UsedAt(After(s, e), e.claims, FirstUse(s, e))
    ensures FirstUse(s, e) <= e.now <= FirstUse(s, e) + GRACE
  {
  }

  /** All successful rotations of one token have the same first use and lie within ten seconds of it. */
  lemma RotationsLieWithinGrace(states: seq<State>, events: seq<Event>, i: nat, j: nat, jti: Jti)
    requires Run(states, events) && i <= j < |events|
    requires AcceptedAt(states[i], events[i], jti) && AcceptedAt(states[j], events[j], jti)
    ensures FirstUse(states[i], events[i]) == FirstUse(states[j], events[j])
    ensures FirstUse(states[i], events[i]) <= events[i].now && events[j].now <= FirstUse(states[i], events[i]) + 10_000
  {
    ReachableInv(states, events, i);
    ReachableInv(states, events, j);
    AcceptanceRecordsUse(states[i], events[i]);
    AcceptanceRecordsUse(states[j], events[j]);
    if i < j {
      UsedFrom(states, events, i + 1, j, events[i].claims, FirstUse(states[i], events[i]));
    }
  }

  /** A token that is presented again after the ten seconds is refused and takes its family with it. */
  lemma LateReuseRevokes(states: seq<State>, events: seq<Event>, i: nat, j: nat, jti: Jti)
    requires Run(states, events) && i < j < |events| && AcceptedAt(states[i], events[i], jti)
    requires events[j].Refresh? && events[j].claims == events[i].claims && events[j].now > events[i].now + 10_000
    ensures !AcceptedAt(states[j], events[j], jti)
    ensures jti in states[j].rows ==> Dead(states[j + 1], states[j].rows[jti].family)
  {
    ReachableInv(states, events, i);
    ReachableInv(states, events, j);
    AcceptanceRecordsUse(states[i], events[i]);
    UsedFrom(states, events, i + 1, j, events[i].claims, FirstUse(states[i], events[i]));
  }
}
