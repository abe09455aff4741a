/** The server side of WebAuthn: the store of per-user credential lists and the
    challenge format (URL-safe base 64 of random bytes, section 5 of RFC 4648,
    with the padding removed).  The random bytes and the clock are parameters. */
module WebAuthnHandler {
  import opened Wrappers
  import opened OrderedDict
  import opened Base64

  datatype Credential = Credential(credentialId: string, publicKey: string, registeredAt: string)

  datatype WUser = WUser(name: string, registeredAt: string, credentials: seq<Credential>)

  type Store = Dict<string, WUser>

  /** `[c for c in cs if c['credential_id'] != cid]`. */
  function WithoutId(cs: seq<Credential>, cid: string): (r: seq<Credential>)
    ensures |r| <= |cs|
    ensures forall c :: c in r <==> c in cs && c.credentialId != cid
  {
    if cs == [] then []
    else if cs[0].credentialId != cid then [cs[0]] + WithoutId(cs[1..], cid)
    else WithoutId(cs[1..], cid)
  }

  /** The credentials of `cs` that carry the id `k`, in their order in `cs`. */
  function WithId(cs: seq<Credential>, k: string): seq<Credential> {
    if cs == [] then []
    else if cs[0].credentialId == k then [cs[0]] + WithId(cs[1..], k)
    else WithId(cs[1..], k)
  }

  /** Removing one id leaves the credentials of every other id, in their order. */
  lemma {:induction false} WithoutIdKeepsOthers(cs: seq<Credential>, cid: string, k: string)
    requires k != cid
    ensures WithId(WithoutId(cs, cid), k) == WithId(cs, k)
  {
    if cs != [] {
      WithoutIdKeepsOthers(cs[1..], cid, k);
      if cs[0].credentialId != cid {
        assert ([cs[0]] + WithoutId(cs[1..], cid))[1..] == WithoutId(cs[1..], cid);
      }
    }
  }

  lemma {:induction false} WithIdAppend(a: seq<Credential>, b: seq<Credential>, k: string)
    ensures WithId(a + b, k) == WithId(a, k) + WithId(b, k)
  {
    if a != [] {
      assert (a + b)[1..] == a[1..] + b;
      WithIdAppend(a[1..], b, k);
    } else {
      assert a + b == b;
    }
  }

  /** The credential list `add_credential` leaves: the old list without the id,
      then the new credential. */
  function Replaced(cs: seq<Credential>, c: Credential): seq<Credential> {
    WithoutId(cs, c.credentialId) + [c]
  }

  /** After adding, exactly one credential carries the new id, and it is the last. */
  lemma AddedCredentialIsLastAndOnly(cs: seq<Credential>, c: Credential)
    ensures var r := Replaced(cs, c);
      && r[|r| - 1] == c
      && forall i :: 0 <= i < |r| - 1 ==> r[i].credentialId != c.credentialId
  {
    var r := Replaced(cs, c);
    forall i | 0 <= i < |r| - 1 ensures r[i].credentialId != c.credentialId {
      assert r[i] in WithoutId(cs, c.credentialId);
    }
  }

  /** Adding keeps the credentials of every other id, in their order. */
  lemma AddedCredentialKeepsOthers(cs: seq<Credential>, c: Credential, k: string)
    requires k != c.credentialId
    ensures WithId(Replaced(cs, c), k) == WithId(cs, k)
  {
    WithIdAppend(WithoutId(cs, c.credentialId), [c], k);
    WithoutIdKeepsOthers(cs, c.credentialId, k);
    assert WithId([c], k) == [];
  }

  /** Some credential of `u` has the id `cid`. */
  predicate Holds(u: WUser, cid: string) {
    exists k :: 0 <= k < |u.credentials| && u.credentials[k].credentialId == cid
  }

  class WebAuthnDatabase {
    var fingerprints: Store

    ghost predicate Valid()
      reads this
    {
      OrderedDict.Valid(fingerprints)
    }

    /** A new database; loading from the file is not modelled, so it starts empty. */
    constructor ()
      ensures Valid() && fingerprints == Empty()
    {
      fingerprints := Empty();
    }

    /** `add_credential`: an unknown user is first created with no credentials;
        then any credential with the same id is dropped and the new one appended. */
    method AddCredential(userId: string, credentialId: string, publicKey: string, name: string, now: string)
      requires Valid()
      modifies this
      ensures Valid()
      ensures userId in old(fingerprints.entries) ==> fingerprints.keys == old(fingerprints.keys)
      ensures userId !in old(fingerprints.entries) ==> fingerprints.keys == old(fingerprints.keys) + [userId]
      ensures forall u :: u != userId ==> (u in fingerprints.entries <==> u in old(fingerprints.entries))
      ensures forall u :: u != userId && u in old(fingerprints.entries) ==>
                fingerprints.entries[u] == old(fingerprints.entries[u])
      ensures fingerprints.entries[userId] ==
                var c := Credential(credentialId, publicKey, now);
                if userId in old(fingerprints.entries)
                then var u := old(fingerprints.entries[userId]); WUser(u.name, u.registeredAt, Replaced(u.credentials, c))
                else WUser(name, now, [c])
    {
      if userId !in fingerprints.entries {
        fingerprints := Put(fingerprints, userId, WUser(name, now, []));
      }
      var credentialData := Credential(credentialId, publicKey, now);
      var user := fingerprints.entries[userId];
      var kept := WithoutId(user.credentials, credentialId);
      fingerprints := Put(fingerprints, userId, user.(credentials := kept + [credentialData]));
    }

    /** `get_user_credentials`: the list of a known user, `[]` for an unknown one. */
    function GetUserCredentials(userId: string): (r: seq<Credential>)
      reads this
      ensures userId !in fingerprints.entries ==> r == []
      ensures userId in fingerprints.entries ==> r == fingerprints.entries[userId].credentials
    {
      if userId !in fingerprints.entries then [] else fingerprints.entries[userId].credentials
    }

    /** `has_credentials`: the user is known and holds at least one credential. */
    function HasCredentials(userId: string): (r: bool)
      reads this
      ensures r <==> userId in fingerprints.entries && |fingerprints.entries[userId].credentials| > 0
      ensures r <==> |GetUserCredentials(userId)| > 0
    {
      if userId !in fingerprints.entries then false
      else |fingerprints.entries[userId].credentials| > 0
    }

    /** The `i`-th user holds a credential with id `cid` and no earlier user does. */
    ghost predicate FirstHolderAt(i: int, cid: string)
      requires Valid()
      reads this
    {
      && 0 <= i < |fingerprints.keys|
      && Holds(fingerprints.entries[fingerprints.keys[i]], cid)
      && forall j :: 0 <= j < i ==> !Holds(fingerprints.entries[fingerprints.keys[j]], cid)
    }

    /** `find_user_by_credential_id`: the first user, in insertion order, holding a
        credential with that id. */
    method FindUserByCredentialId(credentialId: string) returns (r: Option<string>)
      requires Valid()
      ensures r.Some? ==> exists i :: FirstHolderAt(i, credentialId) && fingerprints.keys[i] == r.value
      ensures r.None? <==> forall u :: u in fingerprints.entries ==> !Holds(fingerprints.entries[u], credentialId)
    {
      var keys := fingerprints.keys;
      var i := 0;
      while i < |keys|
        invariant 0 <= i <= |keys|
        invariant forall j :: 0 <= j < i ==> !Holds(fingerprints.entries[keys[j]], credentialId)
      {
        var credentials := fingerprints.entries[keys[i]].credentials;
        var k := 0;
        while k < |credentials|
          invariant 0 <= k <= |credentials|
          invariant forall m :: 0 <= m < k ==> credentials[m].credentialId != credentialId
        {
          if credentials[k].credentialId == credentialId {
            assert FirstHolderAt(i, credentialId);
            return Some(keys[i]);
          }
          k := k + 1;
        }
        i := i + 1;
      }
      forall u | u in fingerprints.entries ensures !Holds(fingerprints.entries[u], credentialId) {
        var j := IndexOf(keys, u);
      }
      return None;
    }

    /** `delete_user`: removes the key when present, and says whether it was. */
    method DeleteUser(userId: string) returns (deleted: bool)
      requires Valid()
      modifies this
      ensures Valid()
      ensures deleted == (userId in old(fingerprints.entries))
      ensures deleted ==> fingerprints == Remove(old(fingerprints), userId)
      ensures !deleted ==> fingerprints == old(fingerprints)
    {
      if userId in fingerprints.entries {
        fingerprints := Remove(fingerprints, userId);
        return true;
      }
      return false;
    }
  }

  // ------------------------------------------------------------ challenges

  /** The number of random bytes in a challenge. */
  const ChallengeBytes := 32

  /** `create_challenge`, given the 32 random bytes it draws: URL-safe base 64
      with the trailing `=` stripped. */
  function CreateChallenge(random: seq<Byte>): (c: string)
    requires |random| == ChallengeBytes
    ensures |c| == 43
    ensures forall i :: 0 <= i < |c| ==> IsUrlChar(c[i]) && c[i] != '='
  {
    UnpaddedUrl(random);
    var c := StripTrailingPad(UrlEncode(random));
    assert |Data(random)| == 43;
    c
  }

  /** `verify_challenge`: re-pad with `==`, decode, and accept when at least 16
      bytes come out; a decoding error rejects. */
  function VerifyChallenge(challenge: string): (ok: bool)
    ensures !IsAscii(challenge + "==") ==> !ok
    ensures ok <==> PyUrlsafeDecode(challenge + "==").Some? && |PyUrlsafeDecode(challenge + "==").value| >= 16
  {
    match PyUrlsafeDecode(challenge + "==")
    case None => false
    case Some(decoded) => |decoded| >= 16
  }

  /** Every challenge the server creates passes its own check. */
  lemma CreatedChallengeVerifies(random: seq<Byte>)
    requires |random| == ChallengeBytes
    ensures VerifyChallenge(CreateChallenge(random))
  {
    PyDecodeUnpadded(random);
  }

  /** A challenge of fewer than 20 characters cannot decode to 16 bytes. */
  lemma ShortChallengeFails(challenge: string)
    requires |challenge| < 20
    ensures !VerifyChallenge(challenge)
  {
    var s := challenge + "==";
    if IsAscii(s) {
      assert |MapFromUrl(s)| == |s|;
    }
  }
}
