/** The fingerprint side of the server: turning a matcher score into a match flag,
    the capture retry loop, and the store of enrolled students with its 1:1
    verification and 1:N identification.

    The matcher library and the capture device are not modelled: one comparison
    is a `Comparator` value and the successive capture attempts are an oracle
    indexed by attempt number.  The clock is a parameter. */
module FingerprintReader {
  import opened Wrappers
  import opened OrderedDict
  import Base64

  type Byte = Base64.Byte
  type Template = seq<Byte>

  /** The matcher's success return code. */
  const SdkSuccess := 0
  /** The lowest matcher score that counts as a match. */
  const MatchScore := 40
  /** The default `threshold` of identification and verification. */
  const DefaultThreshold := 40

  /** What one call of the matcher's compare entry point does: it returns a code
      and writes a score, or it raises. */
  datatype SdkCall = Returned(code: int, score: int) | Raised
  type Comparator = (Template, Template) -> SdkCall

  /** The `(coincide, score)` pair of a comparison. */
  datatype Match = Match(matched: bool, score: int)

  /** One attendance entry; `tipo` is absent on entries made by fingerprint. */
  datatype Attendance = Attendance(userId: string, name: string, timestamp: string,
                                   fecha: string, hora: string, tipo: Option<string>)

  /** One enrolled student.  An empty template means "no fingerprint yet";
      `grupoId` is absent until the student is put in a group. */
  datatype Student = Student(name: string, template: Template, registeredAt: string,
                             grupoId: Option<string>, asistencias: seq<Attendance>)

  type Store = Dict<string, Student>

  // ------------------------------------------------------------ the reader

  /** The state of the reader object that capture and comparison consult: whether
      the libraries were loaded, and the index of the opened device if any. */
  datatype Reader = Reader(sdkLoaded: bool, deviceIndex: Option<int>)

  /** `compare_templates`: the flag is the matcher's verdict only when the library
      is loaded and the call succeeded; every failure reads as `(False, 0)`. */
  function CompareTemplates(sdkLoaded: bool, sdk: Comparator, t1: Template, t2: Template): (r: Match)
    ensures r.matched ==> r.score >= MatchScore
    ensures r.matched <==> sdkLoaded && sdk(t1, t2).Returned? && sdk(t1, t2).code == SdkSuccess
                           && sdk(t1, t2).score >= MatchScore
    ensures !r.matched ==> r.score < MatchScore || r.score == 0
    ensures !sdkLoaded || sdk(t1, t2).Raised? || sdk(t1, t2).code != SdkSuccess ==> r == Match(false, 0)
  {
    if !sdkLoaded then Match(false, 0)
    else match sdk(t1, t2)
      case Raised => Match(false, 0)
      case Returned(code, score) =>
        if code == SdkSuccess then Match(score >= MatchScore, score) else Match(false, 0)
  }

  /** A capture result counts only if it is present and not empty. */
  predicate Captured(t: Option<Template>) {
    t.Some? && |t.value| > 0
  }

  /** `capture_fingerprint`: up to `maxRetries` attempts, stopping at the first
      that yields a template.  `tries` is the number of attempts made. */
  method CaptureFingerprint(reader: Reader, maxRetries: int, attempt: nat -> Option<Template>)
    returns (r: Option<Template>, tries: nat)
    ensures reader.deviceIndex.None? || !reader.sdkLoaded ==> r == None && tries == 0
    ensures tries <= if maxRetries < 0 then 0 else maxRetries
    ensures forall i :: 0 <= i < tries - 1 ==> !Captured(attempt(i))
    ensures r.Some? ==> tries >= 1 && Captured(attempt(tries - 1)) && r == attempt(tries - 1)
    ensures r.None? && reader.deviceIndex.Some? && reader.sdkLoaded ==>
              tries == (if maxRetries < 0 then 0 else maxRetries) && forall i :: 0 <= i < tries ==> !Captured(attempt(i))
  {
    if reader.deviceIndex.None? || !reader.sdkLoaded {
      return None, 0;
    }
    tries := 0;
    while tries < maxRetries
      invariant 0 <= tries && (maxRetries >= 0 ==> tries <= maxRetries)
      invariant maxRetries < 0 ==> tries == 0
      invariant forall i :: 0 <= i < tries ==> !Captured(attempt(i))
    {
      var resultado := attempt(tries);
      tries := tries + 1;
      if Captured(resultado) {
        return resultado, tries;
      }
    }
    r := None;
  }

  // ------------------------------------------------------------- the store

  /** The comparison of a probe against the template stored at the `i`-th key. */
  function Scored(db: Store, i: nat, probe: Template, sdkLoaded: bool, sdk: Comparator): Match
    requires Valid(db) && i < |db.keys|
  {
    CompareTemplates(sdkLoaded, sdk, probe, db.entries[db.keys[i]].template)
  }

  /** Among the first `n` positions, `w` holds the first of the highest-scoring
      matched templates. */
  ghost predicate FirstBestBelow(db: Store, probe: Template, sdkLoaded: bool, sdk: Comparator, n: nat, w: nat)
    requires Valid(db) && n <= |db.keys|
  {
    && w < n
    && Scored(db, w, probe, sdkLoaded, sdk).matched
    && (forall j: nat :: j < n && Scored(db, j, probe, sdkLoaded, sdk).matched ==>
          Scored(db, j, probe, sdkLoaded, sdk).score <= Scored(db, w, probe, sdkLoaded, sdk).score)
    && (forall j: nat :: j < w && Scored(db, j, probe, sdkLoaded, sdk).matched ==>
          Scored(db, j, probe, sdkLoaded, sdk).score < Scored(db, w, probe, sdkLoaded, sdk).score)
  }

  /** Position `w` holds the first of the highest-scoring matched templates. */
  ghost predicate IsFirstBest(db: Store, probe: Template, sdkLoaded: bool, sdk: Comparator, w: nat)
    requires Valid(db)
  {
    FirstBestBelow(db, probe, sdkLoaded, sdk, |db.keys|, w)
  }

  /** The user a successful identification names: the first best match, when its
      score reaches the threshold and its id is not the empty string. */
  ghost predicate Identifies(db: Store, probe: Template, threshold: int, sdkLoaded: bool, sdk: Comparator, w: nat)
    requires Valid(db)
  {
    && IsFirstBest(db, probe, sdkLoaded, sdk, w)
    && Scored(db, w, probe, sdkLoaded, sdk).score >= threshold
    && db.keys[w] != ""
  }

  /** At most one position is the first best match. */
  lemma FirstBestUnique(db: Store, probe: Template, sdkLoaded: bool, sdk: Comparator, v: nat, w: nat)
    requires Valid(db)
    requires IsFirstBest(db, probe, sdkLoaded, sdk, v) && IsFirstBest(db, probe, sdkLoaded, sdk, w)
    ensures v == w
  {
  }

  /** As soon as one of the first `n` stored templates matches, there is a first
      best match among them. */
  lemma {:induction false} FirstBestExists(db: Store, probe: Template, sdkLoaded: bool, sdk: Comparator, n: nat)
    requires Valid(db) && n <= |db.keys|
    requires exists j: nat :: j < n && Scored(db, j, probe, sdkLoaded, sdk).matched
    ensures exists w: nat :: FirstBestBelow(db, probe, sdkLoaded, sdk, n, w)
  {
    var last := Scored(db, n - 1, probe, sdkLoaded, sdk);
    if exists j: nat :: j < n - 1 && Scored(db, j, probe, sdkLoaded, sdk).matched {
      FirstBestExists(db, probe, sdkLoaded, sdk, n - 1);
      var w: nat :| FirstBestBelow(db, probe, sdkLoaded, sdk, n - 1, w);
      if last.matched && last.score > Scored(db, w, probe, sdkLoaded, sdk).score {
        assert FirstBestBelow(db, probe, sdkLoaded, sdk, n, n - 1);
      } else {
        assert FirstBestBelow(db, probe, sdkLoaded, sdk, n, w);
      }
    } else {
      assert FirstBestBelow(db, probe, sdkLoaded, sdk, n, n - 1);
    }
  }

  /** When some stored template matches with a score at or above the threshold
      and no stored id is empty, identification names somebody. */
  lemma MatchAboveThresholdIdentifies(db: Store, probe: Template, threshold: int, sdkLoaded: bool,
                                      sdk: Comparator, j: nat)
    requires Valid(db) && j < |db.keys|
    requires Scored(db, j, probe, sdkLoaded, sdk).matched && Scored(db, j, probe, sdkLoaded, sdk).score >= threshold
    requires forall i | 0 <= i < |db.keys| :: db.keys[i] != ""
    ensures exists w: nat :: Identifies(db, probe, threshold, sdkLoaded, sdk, w)
  {
    FirstBestExists(db, probe, sdkLoaded, sdk, |db.keys|);
    var w: nat :| FirstBestBelow(db, probe, sdkLoaded, sdk, |db.keys|, w);
    assert Identifies(db, probe, threshold, sdkLoaded, sdk, w);
  }

  /** A store of enrolled students kept in insertion order (`fingerprints`). */
  class FingerprintDatabase {
    var fingerprints: Store

    ghost predicate Valid()
      reads this
    {
      OrderedDict.Valid(fingerprints)
    }

    /** A new database; loading from the file is not modelled, so it starts empty. */
    constructor ()
      ensures Valid() && fingerprints == Empty()
    {
      fingerprints := Empty();
    }

    /** `add_fingerprint`: the record at `userId` becomes exactly the name, the
        template and the registration time; anything stored there before,
        group and attendances included, is dropped. */
    method AddFingerprint(userId: string, template: Template, name: string, now: string)
      requires Valid()
      modifies this
      ensures Valid()
      ensures fingerprints == Put(old(fingerprints), userId, Student(name, template, now, None, []))
      ensures ListUsers() == if userId in old(fingerprints.entries)
                             then old(ListUsers())[IndexOf(fingerprints.keys, userId) := Summary(userId, name, now)]
                             else old(ListUsers()) + [Summary(userId, name, now)]
    {
      fingerprints := Put(fingerprints, userId, Student(name, template, now, None, []));
    }

    /** `delete_user`: removes the key when present, and says whether it was. */
    method DeleteUser(userId: string) returns (deleted: bool)
      requires Valid()
      modifies this
      ensures Valid()
      ensures deleted == (userId in old(fingerprints.entries))
      ensures deleted ==> fingerprints == Remove(old(fingerprints), userId)
      ensures !deleted ==> fingerprints == old(fingerprints)
    {
      if userId in fingerprints.entries {
        fingerprints := Remove(fingerprints, userId);
        return true;
      }
      return false;
    }

    /** `identify_fingerprint`: the loop keeps the best matched score so far and
        replaces it only on a strictly higher one. */
    method IdentifyFingerprint(probe: Template, threshold: int, sdkLoaded: bool, sdk: Comparator)
      returns (r: Option<string>)
      requires Valid()
      ensures r.Some? ==> exists w: nat :: Identifies(fingerprints, probe, threshold, sdkLoaded, sdk, w)
                                      && fingerprints.keys[w] == r.value
      ensures r.None? ==> forall w: nat :: !Identifies(fingerprints, probe, threshold, sdkLoaded, sdk, w)
      ensures r.Some? ==> r.value in fingerprints.entries
    {
      if !sdkLoaded {
        forall w: nat ensures !Identifies(fingerprints, probe, threshold, sdkLoaded, sdk, w) {
          if w < |fingerprints.keys| {
            assert !Scored(fingerprints, w, probe, sdkLoaded, sdk).matched;
          }
        }
        return None;
      }
      var keys := fingerprints.keys;
      var bestMatch: Option<string> := None;
      var bestScore := 0;
      ghost var bw: nat := 0;
      var i := 0;
      while i < |keys|
        invariant 0 <= i <= |keys|
        invariant bestMatch.None? ==> bestScore == 0
        invariant bestMatch.None? ==> forall j :: 0 <= j < i ==> !Scored(fingerprints, j, probe, sdkLoaded, sdk).matched
        invariant bestMatch.Some? ==> bw < i && bestMatch.value == keys[bw]
        invariant bestMatch.Some? ==> Scored(fingerprints, bw, probe, sdkLoaded, sdk) == Match(true, bestScore)
        invariant bestMatch.Some? ==> forall j :: 0 <= j < i && Scored(fingerprints, j, probe, sdkLoaded, sdk).matched ==>
                    Scored(fingerprints, j, probe, sdkLoaded, sdk).score <= bestScore
        invariant bestMatch.Some? ==> forall j :: 0 <= j < bw && Scored(fingerprints, j, probe, sdkLoaded, sdk).matched ==>
                    Scored(fingerprints, j, probe, sdkLoaded, sdk).score < bestScore
      {
        var m := CompareTemplates(sdkLoaded, sdk, probe, fingerprints.entries[keys[i]].template);
        assert m == Scored(fingerprints, i, probe, sdkLoaded, sdk);
        if m.matched && m.score > bestScore {
          bestScore := m.score;
          bestMatch := Some(keys[i]);
          bw := i;
        }
        i := i + 1;
      }
      if bestMatch.Some? && bestMatch.value != "" && bestScore >= threshold {
        assert Identifies(fingerprints, probe, threshold, sdkLoaded, sdk, bw);
        return bestMatch;
      }
      forall w: nat | Identifies(fingerprints, probe, threshold, sdkLoaded, sdk, w) ensures false {
        FirstBestUnique(fingerprints, probe, sdkLoaded, sdk, w, bw);
      }
      return None;
    }

    /** `verify_fingerprint`: one comparison against one stored template. */
    function VerifyFingerprint(userId: string, probe: Template, threshold: int, sdkLoaded: bool, sdk: Comparator): (r: Match)
      requires Valid()
      reads this
      ensures userId !in fingerprints.entries || !sdkLoaded ==> r == Match(false, 0)
      ensures userId in fingerprints.entries ==>
                var m := CompareTemplates(sdkLoaded, sdk, probe, fingerprints.entries[userId].template);
                r == Match(m.matched && m.score >= threshold, m.score)
      ensures r.matched ==> r.score >= MatchScore && r.score >= threshold
    {
      if userId !in fingerprints.entries || !sdkLoaded then Match(false, 0)
      else
        var m := CompareTemplates(sdkLoaded, sdk, probe, fingerprints.entries[userId].template);
        Match(m.matched && m.score >= threshold, m.score)
    }

    /** `list_users`: one summary per stored user, in insertion order. */
    function ListUsers(): (r: seq<Summary>)
      requires Valid()
      reads this
      ensures |r| == |fingerprints.keys|
      ensures forall i :: 0 <= i < |r| ==>
                (&& r[i].userId == fingerprints.keys[i]
                 && r[i].name == fingerprints.entries[fingerprints.keys[i]].name
                 && r[i].registeredAt == fingerprints.entries[fingerprints.keys[i]].registeredAt)
    {
      var d := fingerprints;
      seq(|d.keys|, i requires 0 <= i < |d.keys| =>
        var u := d.keys[i]; Summary(u, d.entries[u].name, d.entries[u].registeredAt))
    }
  }

  /** One row of `list_users`. */
  datatype Summary = Summary(userId: string, name: string, registeredAt: string)

  /** The user identification names is accepted by 1:1 verification with the
      same threshold, with the same score. */
  lemma IdentifiedVerifies(db: FingerprintDatabase, probe: Template, threshold: int, sdkLoaded: bool,
                           sdk: Comparator, w: nat)
    requires db.Valid() && Identifies(db.fingerprints, probe, threshold, sdkLoaded, sdk, w)
    ensures db.VerifyFingerprint(db.fingerprints.keys[w], probe, threshold, sdkLoaded, sdk)
         == Match(true, Scored(db.fingerprints, w, probe, sdkLoaded, sdk).score)
  {
  }
}
