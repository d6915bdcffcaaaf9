/** Refresh tokens: issue, rotate, revoke, and revoke everything when a retired token comes back. */
module RefreshTokens {
  import opened Wrappers

  /** A stored token record. Its jti is its position; its digest is that of the one token text with this
      jti, owner and expiry, so comparing digests is comparing those. */
  datatype Token = Token(user: nat, expires: int, revokedAt: Option<int>, replacedBy: Option<nat>)

  /** What a caller presents: nothing that decodes, or claims with a valid signature. */
  datatype Presented = Unreadable | Signed(jti: nat, subject: nat, expires: int)

  datatype Refusal = Expired | Invalid | Reused | Inactive

  datatype Users = Users(active: map<nat, bool>)

  // ----- one call -------------------------------------------------------------------------

  predicate IsActive(t: Token, now: int) {
    t.revokedAt.None? && t.expires > now
  }

  function ActiveOf(tokens: seq<Token>, user: nat, now: int): set<nat> {
    set i | 0 <= i < |tokens| && tokens[i].user == user && IsActive(tokens[i], now)
  }

  function Resolve(tokens: seq<Token>, p: Presented, now: int): Result<nat, Refusal> {
    match p
    case Unreadable => Err(Invalid)
    case Signed(jti, subject, expires) =>
      if expires <= now then Err(Expired)
      else if jti >= |tokens| then Err(Invalid)
      else if tokens[jti].user != subject || tokens[jti].expires != expires then Err(Invalid)
      else Ok(jti)
  }

  function RevokeIf(t: Token, user: nat, now: int): Token {
    if t.user == user && t.revokedAt.None? then t.(revokedAt := Some(now)) else t
  }

  /** Every unrevoked token of the user is revoked, unless none of them was active. */
  function RevokeAll(tokens: seq<Token>, user: nat, now: int): (r: seq<Token>)
    ensures |r| == |tokens|
  {
    if ActiveOf(tokens, user, now) == {} then tokens else RevokeUnrevoked(tokens, user, now)
  }

  /** update ... set revoked_at where user_id = user and revoked_at is null */
  function RevokeUnrevoked(tokens: seq<Token>, user: nat, now: int): seq<Token> {
    seq(|tokens|, i requires 0 <= i < |tokens| => RevokeIf(tokens[i], user, now))
  }

  function Issue(tokens: seq<Token>, user: nat, now: int, lifetime: nat): seq<Token> {
    tokens + [Token(user, now + lifetime, None, None)]
  }

  function Rotate(tokens: seq<Token>, users: Users, p: Presented, now: int, lifetime: nat)
    : (seq<Token>, Result<nat, Refusal>)
  {
    var resolved := Resolve(tokens, p, now);
    if resolved.Err? then (tokens, resolved)
    else
      var jti := resolved.value;
      var record := tokens[jti];
      if record.revokedAt.Some? then (RevokeAll(tokens, record.user, now), Err(Reused))
      else if p.subject !in users.active then (tokens, Err(Invalid))
      else if !users.active[p.subject] then (tokens, Err(Inactive))
      else
        var minted := |tokens|;
        (Issue(tokens, p.subject, now, lifetime)[jti := record.(revokedAt := Some(now), replacedBy := Some(minted))],
            Ok(minted))
  }

  /** The number of sessions ended. */
  function Logout(tokens: seq<Token>, p: Presented, everywhere: bool, now: int): (seq<Token>, Result<nat, Refusal>) {
    var resolved := Resolve(tokens, p, now);
    if resolved.Err? then (tokens, resolved)
    else
      var record := tokens[resolved.value];
      if everywhere then (RevokeAll(tokens, record.user, now), Ok(|ActiveOf(tokens, record.user, now)|))
      else if record.revokedAt.Some? then (tokens, Ok(0))
      else (tokens[resolved.value := record.(revokedAt := Some(now))], Ok(1))
  }

  class TokenTable {
    var tokens: seq<Token>

    constructor ()
      ensures tokens == []
    {
      tokens := [];
    }

    method IssueTokenPair(user: nat, now: int, lifetime: nat) returns (jti: nat)
      modifies this
      ensures tokens == Issue(old(tokens), user, now, lifetime) && jti == |old(tokens)|
    {
      jti := |tokens|;
      tokens := tokens + [Token(user, now + lifetime, None, None)];
    }

    method RevokeAllForUser(user: nat, now: int) returns (count: nat)
      modifies this
      ensures tokens == RevokeAll(old(tokens), user, now) && count == |ActiveOf(old(tokens), user, now)|
    {
      var active := ActiveOf(tokens, user, now);
      if active == {} {
        return 0;
      }
      count := |active|;
      tokens := RevokeUnrevoked(tokens, user, now);
    }

    method RotateRefreshToken(users: Users, p: Presented, now: int, lifetime: nat) returns (r: Result<nat, Refusal>)
      modifies this
      ensures (tokens, r) == Rotate(old(tokens), users, p, now, lifetime)
    {
      r := Resolve(tokens, p, now);
      if r.Err? {
        return;
      }
      var jti := r.value;
      var record := tokens[jti];
      if record.revokedAt.Some? {
        var _ := RevokeAllForUser(record.user, now);
        return Err(Reused);
      }
      if p.subject !in users.active {
        return Err(Invalid);
      }
      if !users.active[p.subject] {
        return Err(Inactive);
      }
      var minted := IssueTokenPair(p.subject, now, lifetime);
      tokens := tokens[jti := record.(revokedAt := Some(now), replacedBy := Some(minted))];
      r := Ok(minted);
    }

    method RevokeRefreshToken(p: Presented, everywhere: bool, now: int) returns (r: Result<nat, Refusal>)
      modifies this
      ensures (tokens, r) == Logout(old(tokens), p, everywhere, now)
    {
      r := Resolve(tokens, p, now);
      if r.Err? {
        return;
      }
      var record := tokens[r.value];
      if everywhere {
        var count := RevokeAllForUser(record.user, now);
        return Ok(count);
      }
      if record.revokedAt.Some? {
        return Ok(0);
      }
      tokens := tokens[r.value := record.(revokedAt := Some(now))];
      r := Ok(1);
    }
  }

  // ----- runs -----------------------------------------------------------------------------

  datatype Op =
    | LoginOp(user: nat, now: int, lifetime: nat)
    | RotateOp(users: Users, presented: Presented, now: int, lifetime: nat)
    | LogoutOp(presented: Presented, everywhere: bool, now: int)

  function Step(tokens: seq<Token>, op: Op): seq<Token> {
    match op
    case LoginOp(user, now, lifetime) => Issue(tokens, user, now, lifetime)
    case RotateOp(users, p, now, lifetime) => Rotate(tokens, users, p, now, lifetime).0
    case LogoutOp(p, everywhere, now) => Logout(tokens, p, everywhere, now).0
  }

  function Run(tokens: seq<Token>, ops: seq<Op>): seq<Token> {
    if ops == [] then tokens else Step(Run(tokens, ops[..|ops| - 1]), ops[|ops| - 1])
  }

  // ----- chains ---------------------------------------------------------------------------

  predicate Links(tokens: seq<Token>, i: nat, j: nat) {
    i < |tokens| && tokens[i].replacedBy == Some(j)
  }

  /** A link leads to a later token of the same user, from a token that is revoked. */
  predicate LinkOk(tokens: seq<Token>, i: nat)
    requires i < |tokens|
  {
    tokens[i].replacedBy.Some? ==>
      && tokens[i].revokedAt.Some?
      && i < tokens[i].replacedBy.value < |tokens|
      && tokens[tokens[i].replacedBy.value].user == tokens[i].user
  }

  /** The replaced_by links form chains: forward, and never two into one token. */
  predicate Chained(tokens: seq<Token>) {
    && (forall i :: 0 <= i < |tokens| ==> LinkOk(tokens, i))
    && (forall i, j :: 0 <= i < j < |tokens| && tokens[i].replacedBy.Some? ==>
          tokens[i].replacedBy != tokens[j].replacedBy)
  }

  /** Nothing but revoking and linking ever happens to a record, and neither is undone. */
  predicate Kept(t: Token, after: Token) {
    && after.user == t.user && after.expires == t.expires
    && (t.revokedAt.Some? ==> after.revokedAt == t.revokedAt)
    && (t.replacedBy.Some? ==> after.replacedBy == t.replacedBy)
    && (t.revokedAt.Some? ==> after.replacedBy == t.replacedBy)
  }

  predicate AllKept(tokens: seq<Token>, after: seq<Token>) {
    |tokens| <= |after| && forall i :: 0 <= i < |tokens| ==> Kept(tokens[i], after[i])
  }

  lemma StepKeeps(tokens: seq<Token>, op: Op)
    requires Chained(tokens)
    ensures AllKept(tokens, Step(tokens, op))
  {
    forall i | 0 <= i < |tokens| ensures Kept(tokens[i], Step(tokens, op)[i]) {
      assert LinkOk(tokens, i);
    }
  }

  lemma RevokeAllChained(tokens: seq<Token>, user: nat, now: int)
    requires Chained(tokens)
    ensures Chained(RevokeAll(tokens, user, now))
  {
    var after := RevokeAll(tokens, user, now);
    forall i | 0 <= i < |after| ensures LinkOk(after, i) && after[i].replacedBy == tokens[i].replacedBy {
      assert LinkOk(tokens, i);
    }
  }

  lemma RotateChained(tokens: seq<Token>, users: Users, p: Presented, now: int, lifetime: nat)
    requires Chained(tokens) && Rotate(tokens, users, p, now, lifetime).1.Ok?
    ensures Chained(Rotate(tokens, users, p, now, lifetime).0)
  {
    var after := Rotate(tokens, users, p, now, lifetime).0;
    var jti, n := Resolve(tokens, p, now).value, |tokens|;
    forall i | 0 <= i < |after| ensures LinkOk(after, i) {
      if i != jti && i < n {
        assert LinkOk(tokens, i);
      }
    }
    forall i, j | 0 <= i < j < |after| && after[i].replacedBy.Some? ensures after[i].replacedBy != after[j].replacedBy {
      if i < n {
        assert LinkOk(tokens, i);
      }
      if j < n {
        assert LinkOk(tokens, j);
      }
    }
  }

  lemma StepChained(tokens: seq<Token>, op: Op)
    requires Chained(tokens)
    ensures Chained(Step(tokens, op))
  {
    match op
    case LoginOp(user, now, lifetime) =>
      forall i | 0 <= i < |tokens| ensures LinkOk(Step(tokens, op), i) {
        assert LinkOk(tokens, i);
      }
    case RotateOp(users, p, now, lifetime) =>
      if Rotate(tokens, users, p, now, lifetime).1.Ok? {
        RotateChained(tokens, users, p, now, lifetime);
      } else if Resolve(tokens, p, now).Ok? {
        RevokeAllChained(tokens, tokens[Resolve(tokens, p, now).value].user, now);
      }
    case LogoutOp(p, everywhere, now) =>
      if Resolve(tokens, p, now).Ok? {
        var jti := Resolve(tokens, p, now).value;
        RevokeAllChained(tokens, tokens[jti].user, now);
        if !everywhere {
          forall i | 0 <= i < |tokens| ensures LinkOk(Step(tokens, op), i) {
            assert LinkOk(tokens, i);
          }
        }
      }
  }

  /** Revocation is permanent: over any run a revoked record keeps its moment of revocation and its
      link, and no record changes owner or expiry. */
  lemma {:induction false} RunKeeps(tokens: seq<Token>, ops: seq<Op>)
    requires Chained(tokens)
    ensures Chained(Run(tokens, ops)) && AllKept(tokens, Run(tokens, ops))
  {
    if ops != [] {
      var before := Run(tokens, ops[..|ops| - 1]);
      RunKeeps(tokens, ops[..|ops| - 1]);
      StepChained(before, ops[|ops| - 1]);
      StepKeeps(before, ops[|ops| - 1]);
      forall i | 0 <= i < |tokens| ensures Kept(tokens[i], Run(tokens, ops)[i]) {
        assert Kept(tokens[i], before[i]) && Kept(before[i], Run(tokens, ops)[i]);
      }
    }
  }

  /** b is a, or a descendant of a by rotation. */
  predicate Descends(tokens: seq<Token>, a: nat, b: nat)
    requires Chained(tokens)
    decreases |tokens| - a
  {
    a == b ||
    (a < |tokens| && tokens[a].replacedBy.Some? &&
     (assert LinkOk(tokens, a); Descends(tokens, tokens[a].replacedBy.value, b)))
  }

  lemma {:induction false} DescendantsAreLater(tokens: seq<Token>, a: nat, b: nat)
    requires Chained(tokens) && Descends(tokens, a, b)
    ensures a <= b && (a < b ==> a < |tokens| && tokens[a].revokedAt.Some?)
    decreases |tokens| - a
  {
    if a != b {
      assert LinkOk(tokens, a);
      DescendantsAreLater(tokens, tokens[a].replacedBy.value, b);
    }
  }

  /** Of two descendants of one token, one descends from the other: a chain never forks. */
  lemma {:induction false} NoFork(tokens: seq<Token>, a: nat, b: nat, c: nat)
    requires Chained(tokens) && Descends(tokens, a, b) && Descends(tokens, a, c)
    ensures Descends(tokens, b, c) || Descends(tokens, c, b)
    decreases |tokens| - a
  {
    if a != b && a != c {
      assert LinkOk(tokens, a);
      NoFork(tokens, tokens[a].replacedBy.value, b, c);
    }
  }

  /** Of two ancestors of one token, one descends from the other: chains never join. */
  lemma {:induction false} NoJoin(tokens: seq<Token>, a: nat, b: nat, c: nat)
    requires Chained(tokens) && Descends(tokens, a, c) && Descends(tokens, b, c)
    ensures Descends(tokens, a, b) || Descends(tokens, b, a)
    decreases (|tokens| - a) + (|tokens| - b)
  {
    if a != c && b != c {
      assert LinkOk(tokens, a) && LinkOk(tokens, b);
      var x, y := tokens[a].replacedBy.value, tokens[b].replacedBy.value;
      NoJoin(tokens, x, y, c);
      if a != b {
        assert x != y;
        if Descends(tokens, x, y) {
          LastLink(tokens, x, b, y);
        } else {
          LastLink(tokens, y, a, x);
        }
      }
    }
  }

  /** Whoever reaches the target of a link from elsewhere comes through the link. */
  lemma {:induction false} LastLink(tokens: seq<Token>, start: nat, link: nat, target: nat)
    requires Chained(tokens) && Descends(tokens, start, target) && start != target && Links(tokens, link, target)
    ensures Descends(tokens, start, link)
    decreases |tokens| - start
  {
    assert LinkOk(tokens, start);
    var next := tokens[start].replacedBy.value;
    if next == target {
      assert start == link;
    } else {
      LastLink(tokens, next, link, target);
    }
  }

  predicate NotRotatedInto(tokens: seq<Token>, a: nat) {
    forall i :: 0 <= i < |tokens| ==> !Links(tokens, i, a)
  }

  lemma {:induction false} DescendantIsLinked(tokens: seq<Token>, a: nat, b: nat)
    requires Chained(tokens) && Descends(tokens, a, b) && a != b
    ensures !NotRotatedInto(tokens, b)
    decreases |tokens| - a
  {
    assert LinkOk(tokens, a);
    var next := tokens[a].replacedBy.value;
    if next == b {
      assert Links(tokens, a, b);
    } else {
      DescendantIsLinked(tokens, next, b);
    }
  }

  predicate Unrevoked(tokens: seq<Token>, i: nat) {
    i < |tokens| && tokens[i].revokedAt.None?
  }

  /** In every run: the links have no cycles, every token but the last of a chain is revoked, a token
      has at most one unrevoked descendant - so a login leads to at most one active session - and the
      chains of two tokens that no rotation produced are disjoint. */
  lemma ChainsOfARun(ops: seq<Op>, a: nat, b: nat, c: nat)
    ensures var tokens := Run([], ops);
      && Chained(tokens)
      && (Descends(tokens, a, b) && Descends(tokens, b, a) ==> a == b)
      && (Descends(tokens, a, b) && Descends(tokens, a, c) && Unrevoked(tokens, b) && Unrevoked(tokens, c) ==> b == c)
      && (Descends(tokens, a, c) && Descends(tokens, b, c) && NotRotatedInto(tokens, a) && NotRotatedInto(tokens, b)
          ==> a == b)
  {
    var tokens := Run([], ops);
    RunKeeps([], ops);
    if Descends(tokens, a, b) && Descends(tokens, b, a) {
      DescendantsAreLater(tokens, a, b);
      DescendantsAreLater(tokens, b, a);
    }
    if Descends(tokens, a, b) && Descends(tokens, a, c) && Unrevoked(tokens, b) && Unrevoked(tokens, c) {
      NoFork(tokens, a, b, c);
      if Descends(tokens, b, c) {
        DescendantsAreLater(tokens, b, c);
      } else {
        DescendantsAreLater(tokens, c, b);
      }
    }
    if Descends(tokens, a, c) && Descends(tokens, b, c) && NotRotatedInto(tokens, a) && NotRotatedInto(tokens, b)
        && a != b {
      NoJoin(tokens, a, b, c);
      if Descends(tokens, a, b) {
        DescendantIsLinked(tokens, a, b);
      } else {
        DescendantIsLinked(tokens, b, a);
      }
    }
  }

  /** The token a login mints is never one that a rotation produced, so it heads a chain of its own. */
  lemma {:induction false} LoginHeadsItsChain(tokens: seq<Token>, user: nat, now: int, lifetime: nat, ops: seq<Op>)
    requires Chained(tokens)
    ensures NotRotatedInto(Run(Issue(tokens, user, now, lifetime), ops), |tokens|)
  {
    var issued := Issue(tokens, user, now, lifetime);
    StepChained(tokens, LoginOp(user, now, lifetime));
    if ops == [] {
      forall i | 0 <= i < |issued| ensures !Links(issued, i, |tokens|) {
        if i < |tokens| {
          assert LinkOk(tokens, i);
        }
      }
    } else {
      LoginHeadsItsChain(tokens, user, now, lifetime, ops[..|ops| - 1]);
      RunKeeps(issued, ops[..|ops| - 1]);
      StepLinksOnward(Run(issued, ops[..|ops| - 1]), ops[|ops| - 1], |tokens|);
    }
  }

  lemma StepLinksOnward(tokens: seq<Token>, op: Op, a: nat)
    requires a < |tokens| && NotRotatedInto(tokens, a)
    ensures NotRotatedInto(Step(tokens, op), a)
  {
    forall i | 0 <= i < |Step(tokens, op)| ensures !Links(Step(tokens, op), i, a) {
      if i < |tokens| {
        assert !Links(tokens, i, a);
      }
    }
  }

  // ----- rotation and reuse ---------------------------------------------------------------

  /** A successful rotation swaps exactly one active token for one new one, and touches no other user. */
  lemma RotationSwapsOne(tokens: seq<Token>, users: Users, p: Presented, now: int, lifetime: nat, other: nat)
    requires lifetime > 0 && Rotate(tokens, users, p, now, lifetime).1.Ok?
    ensures var (after, minted) := Rotate(tokens, users, p, now, lifetime);
      && p.jti in ActiveOf(tokens, p.subject, now) && minted.value !in ActiveOf(tokens, p.subject, now)
      && ActiveOf(after, p.subject, now) == ActiveOf(tokens, p.subject, now) - {p.jti} + {minted.value}
      && Links(after, p.jti, minted.value)
      && (other != p.subject ==> ActiveOf(after, other, now) == ActiveOf(tokens, other, now))
  {
  }

  /** Presenting a revoked token before it expires leaves its user with no active token. */
  lemma ReuseEndsEverySession(tokens: seq<Token>, users: Users, p: Presented, now: int, lifetime: nat)
    requires Resolve(tokens, p, now).Ok? && tokens[Resolve(tokens, p, now).value].revokedAt.Some?
    ensures var (after, r) := Rotate(tokens, users, p, now, lifetime);
      r == Err(Reused) && ActiveOf(after, tokens[p.jti].user, now) == {}
  {
    var user := tokens[p.jti].user;
    var after := RevokeAll(tokens, user, now);
    forall i | 0 <= i < |after| && after[i].user == user ensures !IsActive(after[i], now) {
      if ActiveOf(tokens, user, now) == {} {
        assert i !in ActiveOf(tokens, user, now);
      }
    }
  }

  /** A rotated token is a tripwire for good: whatever happens after the rotation, whoever presents the
      old token again before it expires leaves the user without one active token. */
  lemma OldTokenIsATripwire(tokens: seq<Token>, users: Users, p: Presented, now: int, lifetime: nat,
                            ops: seq<Op>, users': Users, later: int, lifetime': nat)
    requires Chained(tokens) && Rotate(tokens, users, p, now, lifetime).1.Ok? && later < p.expires
    ensures var between := Run(Rotate(tokens, users, p, now, lifetime).0, ops);
      var (after, r) := Rotate(between, users', p, later, lifetime');
      r == Err(Reused) && ActiveOf(after, p.subject, later) == {}
  {
    var rotated := Rotate(tokens, users, p, now, lifetime).0;
    RotateChained(tokens, users, p, now, lifetime);
    RunKeeps(rotated, ops);
    var between := Run(rotated, ops);
    assert Kept(rotated[p.jti], between[p.jti]);
    ReuseEndsEverySession(between, users', p, later, lifetime');
  }

  // ----- what each call does, case by case ------------------------------------------------

  /** The caller presents a token that is unexpired and on record, for its owner and with its expiry. */
  predicate IsOnRecord(tokens: seq<Token>, p: Presented, now: int) {
    && p.Signed? && now < p.expires
    && p.jti < |tokens| && tokens[p.jti].user == p.subject && tokens[p.jti].expires == p.expires
  }

  /** The user's sessions: their unrevoked, unexpired tokens. */
  function Sessions(tokens: seq<Token>, user: nat, now: int): set<nat> {
    set i | 0 <= i < |tokens| && tokens[i].user == user && tokens[i].revokedAt == None && now < tokens[i].expires
  }

  /** Every unrevoked token of the user is revoked now and nothing else is touched - or nothing at all, when the
      user had no session. */
  predicate SessionsEnd(tokens: seq<Token>, after: seq<Token>, user: nat, now: int) {
    if Sessions(tokens, user, now) == {} then after == tokens
    else
      && |after| == |tokens|
      && forall i :: 0 <= i < |tokens| ==>
           after[i] == if tokens[i].user == user && tokens[i].revokedAt == None
                       then Token(user, tokens[i].expires, Some(now), tokens[i].replacedBy) else tokens[i]
  }

  lemma RevokeAllMeans(tokens: seq<Token>, user: nat, now: int)
    ensures SessionsEnd(tokens, RevokeAll(tokens, user, now), user, now)
    ensures ActiveOf(tokens, user, now) == Sessions(tokens, user, now)
  {
    assert ActiveOf(tokens, user, now) == Sessions(tokens, user, now);
  }

  /** The answer to a rotation, case by case. One that goes through retires the token presented, linked to a new
      one, which is its user's, unrevoked and lives its lifetime; a reused token ends its user's sessions; and
      any other refusal writes nothing. */
  lemma RotateMeans(tokens: seq<Token>, users: Users, p: Presented, now: int, lifetime: nat)
    ensures var (after, r) := Rotate(tokens, users, p, now, lifetime);
      var known := IsOnRecord(tokens, p, now);
      var unused := known && tokens[p.jti].revokedAt == None;
      && (r == Err(Expired) <==> p.Signed? && p.expires <= now)
      && (r == Err(Invalid) <==>
            p.Unreadable? || (now < p.expires && !known) || (unused && p.subject !in users.active))
      && (r == Err(Reused) <==> known && !unused)
      && (r == Err(Inactive) <==> unused && p.subject in users.active && !users.active[p.subject])
      && (r == Ok(|tokens|) <==> unused && p.subject in users.active && users.active[p.subject])
      && (r.Ok? ==> r == Ok(|tokens|))
      && (r.Ok? ==> after == tokens[p.jti := Token(p.subject, p.expires, Some(now), Some(|tokens|))]
                             + [Token(p.subject, now + lifetime, None, None)])
      && (r == Err(Reused) ==> SessionsEnd(tokens, after, p.subject, now))
      && (r.Err? && r != Err(Reused) ==> after == tokens)
  {
    if IsOnRecord(tokens, p, now) {
      RevokeAllMeans(tokens, p.subject, now);
    }
  }

  /** The answer to a logout: of one session it revokes the token presented, if it was not revoked yet, and no
      other; of all it ends the user's sessions and says how many there were. */
  lemma LogoutMeans(tokens: seq<Token>, p: Presented, everywhere: bool, now: int)
    ensures var (after, r) := Logout(tokens, p, everywhere, now);
      var known := IsOnRecord(tokens, p, now);
      && (r == Err(Expired) <==> p.Signed? && p.expires <= now)
      && (r == Err(Invalid) <==> p.Unreadable? || (now < p.expires && !known))
      && (r.Ok? <==> known)
      && (r.Err? ==> after == tokens)
      && (known && everywhere ==>
            r == Ok(|Sessions(tokens, p.subject, now)|) && SessionsEnd(tokens, after, p.subject, now))
      && (known && !everywhere && tokens[p.jti].revokedAt != None ==> r == Ok(0) && after == tokens)
      && (known && !everywhere && tokens[p.jti].revokedAt == None ==>
            r == Ok(1) && after == tokens[p.jti := Token(p.subject, p.expires, Some(now), tokens[p.jti].replacedBy)])
  {
    if IsOnRecord(tokens, p, now) {
      RevokeAllMeans(tokens, p.subject, now);
    }
  }

  /** A login adds one session of its user, of the given lifetime, and touches no other token. */
  lemma LoginMeans(tokens: seq<Token>, user: nat, now: int, lifetime: nat, other: nat)
    ensures var after := Step(tokens, LoginOp(user, now, lifetime));
      && |after| == |tokens| + 1 && after[..|tokens|] == tokens
      && after[|tokens|] == Token(user, now + lifetime, None, None)
      && Sessions(after, other, now)
         == Sessions(tokens, other, now) + (if other == user && lifetime > 0 then {|tokens|} else {})
  {
  }
}
