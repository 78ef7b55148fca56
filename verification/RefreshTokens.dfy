/**
 * Rotation of refresh tokens: `JwtManager` of src/jwt_auth.py with the in-memory store, and the refresh route
 * of src/caster.py. A request reads the clock up to three times and does not suspend in between. The signature
 * of a presented token is valid; PyJWT accepts it while `exp` is in the future (section 4.1.4 of RFC 7519).
 */
module RefreshTokens {
  import opened ByteStrings

  datatype Kind = Access | Refresh

  datatype Token = Token(jti: string, exp: int, kind: Kind)

  type Revoked = map<string, int>

  /** `int(time.time())`. */
  function Seconds(t: real): int
  {
    if t >= 0.0 then t.Floor else -(-t).Floor
  }

  function AfterRevoke(revoked: Revoked, jti: string, exp: int, t: real): Revoked
  {
    if exp <= Seconds(t) then revoked else revoked[jti := exp]
  }

  predicate Listed(revoked: Revoked, jti: string, t: real)
  {
    jti in revoked && revoked[jti] > Seconds(t)
  }

  /** A lookup deletes an entry that has expired. */
  function AfterLookup(revoked: Revoked, jti: string, t: real): Revoked
  {
    if jti in revoked && revoked[jti] <= Seconds(t) then revoked - {jti} else revoked
  }

  predicate LooksUp(token: Token, want: Kind, t1: real)
  {
    t1 < token.exp as real && token.kind == want && token.jti != ""
  }

  predicate Accepts(revoked: Revoked, token: Token, want: Kind, t1: real, t2: real)
  {
    t1 < token.exp as real && token.kind == want && (token.jti == "" || !Listed(revoked, token.jti, t2))
  }

  function AfterDecode(revoked: Revoked, token: Token, want: Kind, t1: real, t2: real): Revoked
  {
    if LooksUp(token, want, t1) then AfterLookup(revoked, token.jti, t2) else revoked
  }

  /** The refresh route: accept the token and revoke it. */
  function AfterRefresh(revoked: Revoked, token: Token, t1: real, t2: real, t3: real): Revoked
  {
    var checked := AfterDecode(revoked, token, Refresh, t1, t2);
    if Accepts(revoked, token, Refresh, t1, t2) then AfterRevoke(checked, token.jti, token.exp, t3) else checked
  }

  class JwtManager {
    var revoked: Revoked

    constructor ()
      ensures revoked == map[]
    {
      revoked := map[];
    }

    method RevokeJti(jti: string, exp: int, now: real)
      modifies this
      ensures revoked == AfterRevoke(old(revoked), jti, exp, now)
    {
      if exp <= Seconds(now) {
        return;
      }
      revoked := revoked[jti := exp];
    }

    method IsRevoked(jti: string, now: real) returns (r: bool)
      modifies this
      ensures r == Listed(old(revoked), jti, now)
      ensures revoked == AfterLookup(old(revoked), jti, now)
    {
      if jti !in revoked {
        return false;
      }
      if revoked[jti] <= Seconds(now) {
        revoked := revoked - {jti};
        return false;
      }
      return true;
    }

    method Decode(token: Token, expected: Kind, t1: real, t2: real) returns (ok: bool)
      modifies this
      ensures ok == Accepts(old(revoked), token, expected, t1, t2)
      ensures revoked == AfterDecode(old(revoked), token, expected, t1, t2)
    {
      if token.exp as real <= t1 {
        return false;
      }
      if token.kind != expected {
        return false;
      }
      if token.jti != "" {
        var listed := IsRevoked(token.jti, t2);
        if listed {
          return false;
        }
      }
      return true;
    }

    /** The refresh route up to minting the new pair. */
    method RefreshRoute(token: Token, t1: real, t2: real, t3: real) returns (ok: bool)
      modifies this
      ensures ok == Accepts(old(revoked), token, Refresh, t1, t2)
      ensures revoked == AfterRefresh(old(revoked), token, t1, t2, t3)
    {
      ok := Decode(token, Refresh, t1, t2);
      if ok {
        RevokeJti(token.jti, token.exp, t3);
      }
    }
  }

  // ----- runs -----

  /** Requests, each with its clock readings. The revoke route is a `Check` and a `Revoke`. */
  datatype Request =
    | Exchange(token: Token, t1: real, t2: real, t3: real)
    | Check(token: Token, want: Kind, t1: real, t2: real)
    | Revoke(jti: string, exp: int, t1: real)

  function Handle(revoked: Revoked, r: Request): Revoked
  {
    match r
    case Exchange(token, t1, t2, t3) => AfterRefresh(revoked, token, t1, t2, t3)
    case Check(token, want, t1, t2) => AfterDecode(revoked, token, want, t1, t2)
    case Revoke(jti, exp, t) => AfterRevoke(revoked, jti, exp, t)
  }

  function Run(rs: seq<Request>): Revoked
  {
    if rs == [] then map[] else Handle(Run(rs[..|rs| - 1]), rs[|rs| - 1])
  }

  /** The last clock reading of a request. */
  function Ends(r: Request): real
  {
    match r
    case Exchange(_, _, _, t3) => t3
    case Check(_, _, _, t2) => t2
    case Revoke(_, _, t) => t
  }

  predicate Ordered(r: Request)
  {
    match r
    case Exchange(_, t1, t2, t3) => t1 <= t2 <= t3
    case Check(_, _, t1, t2) => t1 <= t2
    case Revoke(_, _, _) => true
  }

  /** The clock never goes back. */
  predicate Timely(rs: seq<Request>)
  {
    rs != [] ==>
      && Timely(rs[..|rs| - 1]) && Ordered(rs[|rs| - 1])
      && (|rs| > 1 ==> Ends(rs[|rs| - 2]) <= rs[|rs| - 1].t1)
  }

  /** The request exchanges the token. */
  predicate Exchanges(revoked: Revoked, token: Token, r: Request)
  {
    r.Exchange? && r.token == token && Accepts(revoked, token, Refresh, r.t1, r.t2)
  }

  function Count(token: Token, rs: seq<Request>): nat
  {
    if rs == [] then 0
    else Count(token, rs[..|rs| - 1]) + if Exchanges(Run(rs[..|rs| - 1]), token, rs[|rs| - 1]) then 1 else 0
  }

  lemma SecondsMonotone(t: real, u: real)
    requires t <= u
    ensures Seconds(t) <= Seconds(u)
  {
  }

  // ----- when a token is exchanged -----

  /** The expiry the request writes for the identifier: an accepted exchange or a revocation, if not expired yet. */
  function Writes(revoked: Revoked, jti: string, r: Request): Option<int>
  {
    match r
    case Exchange(token, t1, t2, t3) =>
      if token.jti == jti && Accepts(revoked, token, Refresh, t1, t2) && token.exp > Seconds(t3) then Some(token.exp)
      else None
    case Check(_, _, _, _) => None
    case Revoke(j, exp, t) => if j == jti && exp > Seconds(t) then Some(exp) else None
  }

  /** The expiry last written for the identifier, whatever was deleted since. */
  function LastWritten(jti: string, rs: seq<Request>): Option<int>
  {
    if rs == [] then None
    else
      var w := Writes(Run(rs[..|rs| - 1]), jti, rs[|rs| - 1]);
      if w.Some? then w else LastWritten(jti, rs[..|rs| - 1])
  }

  /** Nothing is in force for the identifier: nothing was written, or what was written last has expired. */
  predicate Lapsed(jti: string, rs: seq<Request>, t: real)
  {
    var w := LastWritten(jti, rs);
    w.None? || w.value <= Seconds(t)
  }

  /** The table holds what was written last, or nothing; and nothing only once that has expired. */
  predicate Mirrors(revoked: Revoked, jti: string, written: Option<int>, now: real)
  {
    if jti in revoked then written == Some(revoked[jti]) else written.None? || written.value <= Seconds(now)
  }

  lemma HandleMirrors(revoked: Revoked, jti: string, written: Option<int>, r: Request, now: real)
    requires Mirrors(revoked, jti, written, now) && now <= r.t1 && Ordered(r)
    ensures var w := Writes(revoked, jti, r);
      Mirrors(Handle(revoked, r), jti, if w.Some? then w else written, Ends(r))
  {
    SecondsMonotone(now, Ends(r));
    if !r.Revoke? {
      SecondsMonotone(r.t2, Ends(r));
    }
  }

  lemma {:induction false} TableMirrors(jti: string, rs: seq<Request>)
    requires Timely(rs) && rs != []
    ensures Mirrors(Run(rs), jti, LastWritten(jti, rs), Ends(rs[|rs| - 1]))
  {
    var init, last := rs[..|rs| - 1], rs[|rs| - 1];
    if init == [] {
      HandleMirrors(map[], jti, None, last, last.t1);
    } else {
      TableMirrors(jti, init);
      assert init[|init| - 1] == rs[|rs| - 2];
      HandleMirrors(Run(init), jti, LastWritten(jti, init), last, Ends(init[|init| - 1]));
    }
  }

  /** The clock readings of a check that comes after the requests. */
  predicate Follows(rs: seq<Request>, t1: real, t2: real)
  {
    t1 <= t2 && (rs != [] ==> Ends(rs[|rs| - 1]) <= t1)
  }

  /**
   * After any requests whatever, a token of either kind is accepted exactly when it has not expired, is of the kind
   * asked for, and nothing is in force for its identifier at the moment of the lookup, or it has none.
   */
  lemma AcceptedIff(token: Token, want: Kind, rs: seq<Request>, t1: real, t2: real)
    requires Timely(rs) && Follows(rs, t1, t2)
    ensures Accepts(Run(rs), token, want, t1, t2) <==>
      t1 < token.exp as real && token.kind == want && (token.jti == "" || Lapsed(token.jti, rs, t2))
  {
    if rs != [] {
      TableMirrors(token.jti, rs);
      SecondsMonotone(Ends(rs[|rs| - 1]), t2);
    }
  }

  /** A refresh token is never accepted as an access token, nor the other way round. */
  lemma KindsApart(token: Token, want: Kind, rs: seq<Request>, t1: real, t2: real)
    requires Timely(rs) && Follows(rs, t1, t2) && want != token.kind
    ensures !Accepts(Run(rs), token, want, t1, t2)
  {
    AcceptedIff(token, want, rs, t1, t2);
  }

  /** Whatever its kind, a token is refused as long as the revocation written last for it is in force. */
  lemma RevokedIsRefused(token: Token, want: Kind, rs: seq<Request>, exp: int, t: real, t1: real, t2: real)
    requires var all := rs + [Revoke(token.jti, exp, t)]; Timely(all) && Follows(all, t1, t2)
    requires token.jti != "" && exp > Seconds(t) && exp > Seconds(t2)
    ensures !Accepts(Run(rs + [Revoke(token.jti, exp, t)]), token, want, t1, t2)
  {
    var all := rs + [Revoke(token.jti, exp, t)];
    assert all[..|all| - 1] == rs && all[|all| - 1] == Revoke(token.jti, exp, t);
    AcceptedIff(token, want, all, t1, t2);
  }

  /** A whole second is in the future of the integer clock exactly when it is in the future of the clock. */
  lemma InForceIffFuture(exp: int, t: real)
    requires t >= 0.0
    ensures exp > Seconds(t) <==> exp as real > t
  {
  }

  /** The request presents the token as a refresh token while it has not expired. */
  predicate Presents(token: Token, r: Request)
  {
    r.Exchange? && r.token == token && token.kind == Refresh && r.t1 < token.exp as real
  }

  /**
   * After any requests whatever, revocations with any expiry and other tokens with the same identifier
   * included: a presented refresh token is exchanged exactly when nothing is in force for its identifier at
   * the moment of the lookup, or it has none.
   */
  lemma {:induction false} ExchangeIff(token: Token, rs: seq<Request>, r: Request)
    requires Timely(rs + [r])
    ensures Exchanges(Run(rs), token, r) <==> Presents(token, r) && (token.jti == "" || Lapsed(token.jti, rs, r.t2))
  {
    var all := rs + [r];
    assert all[..|all| - 1] == rs && all[|all| - 1] == r;
    if rs != [] && r.Exchange? {
      assert all[|all| - 2] == rs[|rs| - 1];
      TableMirrors(token.jti, rs);
      SecondsMonotone(Ends(rs[|rs| - 1]), r.t2);
    }
  }

  /**
   * A token is exchanged at most once exactly when, whenever it is presented after an exchange, something is in
   * force for its identifier.
   */
  lemma {:induction false} ExchangedOnceIff(token: Token, rs: seq<Request>)
    requires Timely(rs) && token.jti != ""
    ensures Count(token, rs) <= 1 <==>
      forall i :: 0 <= i < |rs| && Presents(token, rs[i]) && Count(token, rs[..i]) > 0 ==>
        !Lapsed(token.jti, rs[..i], rs[i].t2)
  {
    if rs != [] {
      var init, last := rs[..|rs| - 1], rs[|rs| - 1];
      ExchangedOnceIff(token, init);
      assert forall i :: 0 <= i < |init| ==> init[..i] == rs[..i] && init[i] == rs[i];
      assert rs == init + [last];
      ExchangeIff(token, init, last);
    }
  }

  /** A revocation in force decides alone: the token is exchanged next exactly when that revocation has expired. */
  lemma {:induction false} RevocationDecides(token: Token, rs: seq<Request>, exp: int, t: real, r: Request)
    requires Timely(rs + [Revoke(token.jti, exp, t)] + [r]) && token.jti != "" && exp > Seconds(t)
    ensures Exchanges(Run(rs + [Revoke(token.jti, exp, t)]), token, r) <==> Presents(token, r) && exp <= Seconds(r.t2)
  {
    var before := rs + [Revoke(token.jti, exp, t)];
    assert before[..|before| - 1] == rs && before[|before| - 1] == Revoke(token.jti, exp, t);
    ExchangeIff(token, before, r);
  }

  // ----- when revocations carry the token's own expiry -----

  /** No other token has this token's identifier, and revocations of it carry its own expiry. */
  predicate Own(token: Token, r: Request)
  {
    match r
    case Exchange(t, _, _, _) => t.jti == token.jti ==> t == token
    case Check(_, _, _, _) => true
    case Revoke(jti, exp, _) => jti == token.jti ==> exp == token.exp
  }

  predicate AllOwn(token: Token, rs: seq<Request>)
  {
    forall r :: r in rs ==> Own(token, r)
  }

  /** The token expires between the signature check and the lookup of the request that presents it. */
  predicate Straddles(token: Token, r: Request)
  {
    Presents(token, r) && token.exp <= Seconds(r.t2)
  }

  lemma SecondsBelow(exp: int, t: real)
    requires 0.0 <= t && exp <= Seconds(t)
    ensures exp as real <= t
  {
  }

  /** Once exchanged, what was written last for the token is its own expiry, unless that has passed. */
  lemma {:induction false} ExchangedIsWritten(token: Token, rs: seq<Request>)
    requires Timely(rs) && AllOwn(token, rs) && Count(token, rs) > 0 && rs[0].t1 >= 0.0
    ensures LastWritten(token.jti, rs) == Some(token.exp) || token.exp as real <= Ends(rs[|rs| - 1])
  {
    var init, last := rs[..|rs| - 1], rs[|rs| - 1];
    assert last in rs && rs == init + [last];
    ClockNonNegative(rs);
    if Count(token, init) > 0 {
      ExchangedIsWritten(token, init);
      assert init[|init| - 1] == rs[|rs| - 2];
    } else if token.exp <= Seconds(last.t3) {
      SecondsBelow(token.exp, last.t3);
    }
  }

  /** The token is listed with its own expiry, or has expired. */
  predicate Spent(revoked: Revoked, token: Token, now: real)
  {
    (token.jti in revoked && revoked[token.jti] == token.exp) || token.exp as real <= now
  }

  /** So it stays listed until it has expired, despite the deletions. */
  lemma ExchangedIsSpent(token: Token, rs: seq<Request>)
    requires Timely(rs) && AllOwn(token, rs) && Count(token, rs) > 0 && rs[0].t1 >= 0.0
    ensures Spent(Run(rs), token, Ends(rs[|rs| - 1]))
  {
    var now := Ends(rs[|rs| - 1]);
    TableMirrors(token.jti, rs);
    ExchangedIsWritten(token, rs);
    ClockNonNegative(rs);
    if token.exp <= Seconds(now) {
      SecondsBelow(token.exp, now);
    }
  }

  lemma {:induction false} ClockNonNegative(rs: seq<Request>)
    requires Timely(rs) && rs != [] && rs[0].t1 >= 0.0
    ensures rs[|rs| - 1].t1 >= 0.0 && Ends(rs[|rs| - 1]) >= 0.0
  {
    if |rs| > 1 {
      ClockNonNegative(rs[..|rs| - 1]);
    }
  }

  /** Then, after an exchange, the token is exchanged again exactly when a request straddles its expiry. */
  lemma ReplayIffStraddles(token: Token, rs: seq<Request>, r: Request)
    requires Timely(rs + [r]) && AllOwn(token, rs) && rs != [] && rs[0].t1 >= 0.0
    requires token.jti != "" && Count(token, rs) > 0
    ensures Exchanges(Run(rs), token, r) <==> Straddles(token, r)
  {
    var all := rs + [r];
    assert all[..|all| - 1] == rs && all[|all| - 1] == r && all[|all| - 2] == rs[|rs| - 1];
    ExchangeIff(token, rs, r);
    ExchangedIsWritten(token, rs);
  }

  /** No request straddles the expiry of the token after an exchange. */
  predicate NoneStraddles(token: Token, rs: seq<Request>)
  {
    forall i :: 0 <= i < |rs| && Straddles(token, rs[i]) ==> Count(token, rs[..i]) == 0
  }

  lemma NoneStraddlesNext(token: Token, init: seq<Request>, last: Request)
    ensures NoneStraddles(token, init + [last]) <==>
      NoneStraddles(token, init) && (Straddles(token, last) ==> Count(token, init) == 0)
  {
    var rs := init + [last];
    assert forall i :: 0 <= i < |init| ==> init[..i] == rs[..i] && init[i] == rs[i];
    assert rs[..|init|] == init && rs[|init|] == last;
  }

  /** It is exchanged at most once exactly when no request that straddles its expiry follows an exchange. */
  lemma {:induction false} OnceIffNoneStraddles(token: Token, rs: seq<Request>)
    requires Timely(rs) && AllOwn(token, rs) && token.jti != "" && (rs != [] ==> rs[0].t1 >= 0.0)
    ensures Count(token, rs) <= 1 <==> NoneStraddles(token, rs)
  {
    if rs != [] {
      var init, last := rs[..|rs| - 1], rs[|rs| - 1];
      OnceIffNoneStraddles(token, init);
      assert rs == init + [last];
      NoneStraddlesNext(token, init, last);
      if Count(token, init) > 0 {
        ReplayIffStraddles(token, init, last);
      }
    }
  }

  /** And never a third time. */
  lemma {:induction false} AtMostTwice(token: Token, rs: seq<Request>)
    requires Timely(rs) && AllOwn(token, rs) && token.jti != "" && (rs != [] ==> rs[0].t1 >= 0.0)
    ensures Count(token, rs) <= 2
    ensures Count(token, rs) == 2 ==> token.exp as real <= Ends(rs[|rs| - 1])
  {
    if rs != [] {
      var init, last := rs[..|rs| - 1], rs[|rs| - 1];
      AtMostTwice(token, init);
      assert rs == init + [last];
      ClockNonNegative(rs);
      if Count(token, init) > 0 {
        ReplayIffStraddles(token, init, last);
        assert init[|init| - 1] == rs[|rs| - 2];
        if Straddles(token, last) {
          SecondsBelow(token.exp, last.t2);
        }
      }
    }
  }

  /** The clock passes the expiry within the second request, and the token is exchanged twice. */
  lemma ReplayHappens()
    ensures var token := Token("a", 100, Refresh);
      var rs := [Exchange(token, 50.0, 50.0, 50.0), Exchange(token, 99.5, 100.5, 100.5)];
      Timely(rs) && AllOwn(token, rs) && Count(token, rs) == 2
  {
    var token := Token("a", 100, Refresh);
    var first, second := Exchange(token, 50.0, 50.0, 50.0), Exchange(token, 99.5, 100.5, 100.5);
    var rs := [first, second];
    assert rs[..1] == [first];
    ExchangedFirst(token, first);
    assert Exchanges(Run([first]), token, second);
  }

  /** A fresh refresh token is exchanged by the first request, which lists it. */
  lemma ExchangedFirst(token: Token, r: Request)
    requires r.Exchange? && r.token == token && token.kind == Refresh && r.t1 < token.exp as real
    ensures Count(token, [r]) == 1 && Timely([r]) == Ordered(r)
    ensures Run([r]) == if token.exp <= Seconds(r.t3) then map[] else map[token.jti := token.exp]
  {
    assert [r][..0] == [];
    assert Exchanges(Run([]), token, r);
  }

  /** A revocation that carries an earlier expiry than the token's own lets an exchanged token through again. */
  lemma EarlierExpiryReopens()
    ensures var token := Token("a", 100, Refresh);
      var rs := [Exchange(token, 50.0, 50.0, 50.0), Revoke("a", 60, 55.0), Exchange(token, 70.0, 70.0, 70.0)];
      Timely(rs) && Count(token, rs) == 2
  {
    var token := Token("a", 100, Refresh);
    var first, second, third := Exchange(token, 50.0, 50.0, 50.0), Revoke("a", 60, 55.0),
                                Exchange(token, 70.0, 70.0, 70.0);
    var rs := [first, second, third];
    var init := [first, second];
    assert rs[..2] == init && init[..1] == [first];
    ExchangedFirst(token, first);
    assert Count(token, init) == 1 && Timely(init);
    assert Run(init) == map["a" := 60];
    assert Exchanges(Run(init), token, third);
  }
}
