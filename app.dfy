/** The store logic of the attendance server's routes, with the HTTP layer taken
    off: groups (`grupos`), students enrolled in groups, manual and fingerprint
    attendance, the statistics and the attendance matrix behind the spreadsheet
    export.  Each route is a method over the group registry and the fingerprint
    database; an error response is an `Err` value.  The clock is a parameter. */
module App {
  import opened Wrappers
  import opened OrderedDict
  import opened Text
  import opened FingerprintReader

  datatype Group = Group(nombre: string, carreraTecnica: string, createdAt: string)

  type Groups = Dict<string, Group>

  /** One reading of the clock: the ISO timestamp, the `%Y-%m-%d` date and the
      `%H:%M:%S` time of the same instant. */
  datatype Now = Now(iso: string, fecha: string, hora: string)

  datatype AppError =
    | GroupNotFound
    | StudentNotFound
    | NameRequired       // no name field in the request
    | NameBlank          // the name is empty once stripped
    | DuplicateName      // another group has the same name, ignoring case
    | GroupNotEmpty(count: nat)

  /** The groups, kept in insertion order. */
  class GroupRegistry {
    var grupos: Groups

    ghost predicate Valid()
      reads this
    {
      OrderedDict.Valid(grupos)
    }

    /** Loading from the file is not modelled: the registry starts empty. */
    constructor ()
      ensures Valid() && grupos == Empty()
    {
      grupos := Empty();
    }
  }

  // ------------------------------------------------------------ identifiers

  /** `f"GRP-{n:03d}"`. */
  function GroupId(n: nat): string {
    "GRP-" + Pad3(n)
  }

  /** The id `crear_grupo` hands out: one more than the number of groups. */
  function NextGroupId(g: Groups): string {
    GroupId(|g.keys| + 1)
  }

  /** `f"{grupo_id}-{n:03d}"`. */
  function StudentId(gid: string, n: nat): string {
    gid + "-" + Pad3(n)
  }

  /** Different sequence numbers give different ids, in both formulas. */
  lemma IdsInjective(gid: string, m: nat, n: nat)
    ensures GroupId(m) == GroupId(n) ==> m == n
    ensures StudentId(gid, m) == StudentId(gid, n) ==> m == n
  {
    if GroupId(m) == GroupId(n) {
      assert Pad3(m) == GroupId(m)[4..] && Pad3(n) == GroupId(n)[4..];
      Pad3Injective(m, n);
    }
    if StudentId(gid, m) == StudentId(gid, n) {
      assert Pad3(m) == StudentId(gid, m)[|gid| + 1..] && Pad3(n) == StudentId(gid, n)[|gid| + 1..];
      Pad3Injective(m, n);
    }
  }

  // ------------------------------------------------------ group membership

  /** The ids, in insertion order, among `keys` of the students whose group is `gid`. */
  function MembersIn(d: Store, keys: seq<string>, gid: string): (r: seq<string>)
    requires forall k :: k in keys ==> k in d.entries
    ensures |r| <= |keys|
    ensures forall u :: u in r <==> u in keys && d.entries[u].grupoId == Some(gid)
  {
    if keys == [] then []
    else
      var last := keys[|keys| - 1];
      MembersIn(d, keys[..|keys| - 1], gid) + (if d.entries[last].grupoId == Some(gid) then [last] else [])
  }

  /** The members keep the order of the list, and each appears once when the
      list has no repeats. */
  lemma {:induction false} MembersInOrder(d: Store, keys: seq<string>, gid: string)
    requires forall k :: k in keys ==> k in d.entries
    ensures Subsequence(MembersIn(d, keys, gid), keys)
    ensures Distinct(keys) ==> Distinct(MembersIn(d, keys, gid))
  {
    if keys != [] {
      var init, last := keys[..|keys| - 1], keys[|keys| - 1];
      var front := MembersIn(d, init, gid);
      MembersInOrder(d, init, gid);
      assert Distinct(keys) ==> Distinct(init) && last !in init;
      if d.entries[last].grupoId == Some(gid) {
        assert MembersIn(d, keys, gid) == front + [last];
        assert (front + [last])[..|front|] == front;
      } else {
        assert MembersIn(d, keys, gid) == front;
      }
    }
  }

  /** The students of group `gid`, in insertion order. */
  function Members(d: Store, gid: string): (r: seq<string>)
    requires OrderedDict.Valid(d)
    ensures forall u :: u in r <==> u in d.entries && d.entries[u].grupoId == Some(gid)
    ensures Distinct(r) && Subsequence(r, d.keys)
  {
    MembersInOrder(d, d.keys, gid);
    MembersIn(d, d.keys, gid)
  }

  /** `sum(1 for a in db.fingerprints.values() if a.get('grupo_id') == grupo_id)`. */
  function CountInGroup(d: Store, gid: string): nat
    requires OrderedDict.Valid(d)
  {
    |Members(d, gid)|
  }

  /** A group counts no students exactly when no student belongs to it. */
  lemma CountInGroupZero(d: Store, gid: string)
    requires OrderedDict.Valid(d)
    ensures CountInGroup(d, gid) == 0 <==> forall u :: u in d.entries ==> d.entries[u].grupoId != Some(gid)
  {
    var m := Members(d, gid);
    assert m != [] ==> m[0] in m;
  }

  /** The count of a group, in `eliminar_grupo` and in its statistics, is the number
      of students whose `grupo_id` is the group: each is counted once. */
  lemma CountInGroupIsCard(d: Store, gid: string, g: Group)
    requires OrderedDict.Valid(d)
    ensures CountInGroup(d, gid) == |set u | u in d.entries && d.entries[u].grupoId == Some(gid)|
    ensures StatsOfGroup(d, gid, g).totalAlumnos == CountInGroup(d, gid)
  {
    var m := Members(d, gid);
    DistinctCard(m);
    assert (set u | u in m) == set u | u in d.entries && d.entries[u].grupoId == Some(gid);
  }

  /** Every student's group, when it has one, is a registered group. */
  ghost predicate GroupsResolve(g: Groups, d: Store) {
    forall u :: u in d.entries && d.entries[u].grupoId.Some? ==> d.entries[u].grupoId.value in g.entries
  }

  // ---------------------------------------------------------------- groups

  /** `g.upper() == nombre.upper()` for some group already registered. */
  predicate NameTaken(g: Groups, nombre: string) {
    exists k :: k in g.entries && SameName(g.entries[k], Upper(nombre))
  }

  /** The group's name, upper-cased, is `target`. */
  predicate SameName(grp: Group, target: string) {
    Upper(grp.nombre) == target
  }

  /** The duplicate-name loop of `crear_grupo`, over the groups in order. */
  method FindDuplicate(g: Groups, name: string) returns (taken: bool)
    requires OrderedDict.Valid(g)
    ensures taken <==> NameTaken(g, name)
  {
    var target := Upper(name);
    var keys := g.keys;
    var i := 0;
    while i < |keys|
      invariant 0 <= i <= |keys|
      invariant forall j :: 0 <= j < i ==> !SameName(g.entries[keys[j]], target)
    {
      var k := keys[i];
      if SameName(g.entries[k], target) {
        assert k in g.entries;
        return true;
      }
      i := i + 1;
    }
    NoNameTaken(g, name);
    return false;
  }

  /** No group listed in order has the name, so no group has it. */
  lemma NoNameTaken(g: Groups, name: string)
    requires OrderedDict.Valid(g)
    requires forall j :: 0 <= j < |g.keys| ==> !SameName(g.entries[g.keys[j]], Upper(name))
    ensures !NameTaken(g, name)
  {
    forall k | k in g.entries ensures !SameName(g.entries[k], Upper(name)) {
      var j := IndexOf(g.keys, k);
    }
  }

  /** `crear_grupo`: the name is required and stripped; a name equal to an
      existing one after `upper()` is refused; the new group is written at the
      next sequential id, whether or not that id is already taken. */
  method CrearGrupo(reg: GroupRegistry, nombre: Option<string>, carreraTecnica: Option<string>, now: Now)
    returns (r: Result<string, AppError>)
    requires reg.Valid()
    modifies reg
    ensures reg.Valid()
    ensures nombre.None? ==> r == Err(NameRequired)
    ensures nombre.Some? && Strip(nombre.value) == [] ==> r == Err(NameBlank)
    ensures nombre.Some? && Strip(nombre.value) != [] && NameTaken(old(reg.grupos), Strip(nombre.value)) ==>
              r == Err(DuplicateName)
    ensures r.Err? ==> reg.grupos == old(reg.grupos)
    ensures r.Ok? ==>
              && nombre.Some? && Strip(nombre.value) != [] && !NameTaken(old(reg.grupos), Strip(nombre.value))
              && r.value == NextGroupId(old(reg.grupos))
              && reg.grupos == Put(old(reg.grupos), r.value,
                                   Group(Strip(nombre.value), Strip(carreraTecnica.GetOr("")), now.iso))
  {
    if nombre.None? {
      return Err(NameRequired);
    }
    var name := Strip(nombre.value);
    var carrera := Strip(carreraTecnica.GetOr(""));
    if name == [] {
      return Err(NameBlank);
    }
    var grupoId := NextGroupId(reg.grupos);
    var taken := FindDuplicate(reg.grupos, name);
    if taken {
      return Err(DuplicateName);
    }
    reg.grupos := Put(reg.grupos, grupoId, Group(name, carrera, now.iso));
    return Ok(grupoId);
  }

  /** `eliminar_grupo`: only a registered group with no students is removed. */
  method EliminarGrupo(reg: GroupRegistry, db: FingerprintDatabase, gid: string) returns (r: Result<(), AppError>)
    requires reg.Valid() && db.Valid()
    modifies reg
    ensures reg.Valid()
    ensures gid !in old(reg.grupos.entries) ==> r == Err(GroupNotFound)
    ensures gid in old(reg.grupos.entries) && CountInGroup(db.fingerprints, gid) > 0 ==>
              r == Err(GroupNotEmpty(CountInGroup(db.fingerprints, gid)))
    ensures r.Err? ==> reg.grupos == old(reg.grupos)
    ensures r.Ok? ==> gid in old(reg.grupos.entries) && CountInGroup(db.fingerprints, gid) == 0
                      && reg.grupos == Remove(old(reg.grupos), gid)
  {
    if gid !in reg.grupos.entries {
      return Err(GroupNotFound);
    }
    var alumnosEnGrupo := CountInGroup(db.fingerprints, gid);
    if alumnosEnGrupo > 0 {
      return Err(GroupNotEmpty(alumnosEnGrupo));
    }
    reg.grupos := Remove(reg.grupos, gid);
    return Ok(());
  }

  /** Removing a group nobody belongs to leaves every student's group registered. */
  lemma RemoveEmptyGroupResolves(g: Groups, d: Store, gid: string)
    requires OrderedDict.Valid(g) && OrderedDict.Valid(d) && gid in g.entries
    requires GroupsResolve(g, d) && CountInGroup(d, gid) == 0
    ensures GroupsResolve(Remove(g, gid), d)
  {
    CountInGroupZero(d, gid);
    forall u | u in d.entries && d.entries[u].grupoId.Some?
      ensures d.entries[u].grupoId.value in Remove(g, gid).entries
    {
      assert d.entries[u].grupoId != Some(gid);
    }
  }

  // -------------------------------------------------------------- students

  /** One row of `listar_alumnos_grupo`. */
  datatype AlumnoInfo = AlumnoInfo(userId: string, name: string, registeredAt: string, tieneHuella: bool)

  function Info(d: Store, u: string): AlumnoInfo
    requires u in d.entries
  {
    var s := d.entries[u];
    AlumnoInfo(u, s.name, s.registeredAt, |s.template| > 0)
  }

  /** The rows of the students of a group, in insertion order, before sorting. */
  function Listing(d: Store, members: seq<string>): (r: seq<AlumnoInfo>)
    requires forall u :: u in members ==> u in d.entries
    ensures |r| == |members|
    ensures forall i :: 0 <= i < |r| ==> r[i] == Info(d, members[i])
  {
    if members == [] then [] else Listing(d, members[..|members| - 1]) + [Info(d, members[|members| - 1])]
  }

  function NameKey(a: AlumnoInfo): string {
    Upper(a.name)
  }

  /** One more key in the loop of `listar_alumnos_grupo`. */
  lemma MembersStep(d: Store, keys: seq<string>, i: nat, gid: string)
    requires i < |keys| && forall k :: k in keys ==> k in d.entries
    ensures Listing(d, MembersIn(d, keys[..i + 1], gid))
         == Listing(d, MembersIn(d, keys[..i], gid))
            + (if d.entries[keys[i]].grupoId == Some(gid) then [Info(d, keys[i])] else [])
  {
    var before := MembersIn(d, keys[..i], gid);
    assert keys[..i + 1][..i] == keys[..i];
    if d.entries[keys[i]].grupoId == Some(gid) {
      assert MembersIn(d, keys[..i + 1], gid) == before + [keys[i]];
      assert (before + [keys[i]])[..|before|] == before;
    } else {
      assert MembersIn(d, keys[..i + 1], gid) == before;
    }
  }

  /** The loop of `listar_alumnos_grupo` that collects the rows of the group's
      students, in insertion order. */
  method CollectListing(d: Store, gid: string) returns (alumnos: seq<AlumnoInfo>)
    requires OrderedDict.Valid(d)
    ensures alumnos == Listing(d, Members(d, gid))
  {
    var keys := d.keys;
    alumnos := [];
    var i := 0;
    while i < |keys|
      invariant 0 <= i <= |keys|
      invariant alumnos == Listing(d, MembersIn(d, keys[..i], gid))
    {
      var u := keys[i];
      MembersStep(d, keys, i, gid);
      if d.entries[u].grupoId == Some(gid) {
        alumnos := alumnos + [Info(d, u)];
      }
      i := i + 1;
    }
    assert keys[..i] == keys;
    return alumnos;
  }

  /** `listar_alumnos_grupo`: the students of a registered group, sorted by the
      upper-cased name. */
  method ListarAlumnosGrupo(reg: GroupRegistry, db: FingerprintDatabase, gid: string)
    returns (r: Result<seq<AlumnoInfo>, AppError>)
    requires reg.Valid() && db.Valid()
    ensures gid !in reg.grupos.entries <==> r == Err(GroupNotFound)
    ensures r.Ok? ==> r.value == SortBy(Listing(db.fingerprints, Members(db.fingerprints, gid)), NameKey)
  {
    if gid !in reg.grupos.entries {
      return Err(GroupNotFound);
    }
    var alumnos := CollectListing(db.fingerprints, gid);
    return Ok(SortBy(alumnos, NameKey));
  }

  /** The listing holds one row per student of the group, in name order. */
  lemma ListingSortedAndComplete(d: Store, gid: string)
    requires OrderedDict.Valid(d)
    ensures var r := SortBy(Listing(d, Members(d, gid)), NameKey);
      && SortedBy(r, NameKey)
      && (forall a :: a in r ==> a.userId in d.entries && d.entries[a.userId].grupoId == Some(gid)
                                 && a == Info(d, a.userId))
      && forall u :: u in d.entries && d.entries[u].grupoId == Some(gid) ==> Info(d, u) in r
  {
    SortBySorted(Listing(d, Members(d, gid)), NameKey);
    ListingSound(d, gid);
    ListingComplete(d, gid);
  }

  /** Every row of the listing is the row of a student of the group. */
  lemma ListingSound(d: Store, gid: string)
    requires OrderedDict.Valid(d)
    ensures var r := SortBy(Listing(d, Members(d, gid)), NameKey);
      forall a :: a in r ==> a.userId in d.entries && d.entries[a.userId].grupoId == Some(gid)
                             && a == Info(d, a.userId)
  {
    var m := Members(d, gid);
    var l := Listing(d, m);
    var r := SortBy(l, NameKey);
    SortBySorted(l, NameKey);
    forall a | a in r
      ensures a.userId in d.entries && d.entries[a.userId].grupoId == Some(gid) && a == Info(d, a.userId)
    {
      assert a in multiset(r);
      var i :| 0 <= i < |l| && l[i] == a;
      assert m[i] in m;
    }
  }

  /** Every student of the group has a row in the listing. */
  lemma ListingComplete(d: Store, gid: string)
    requires OrderedDict.Valid(d)
    ensures var r := SortBy(Listing(d, Members(d, gid)), NameKey);
      forall u :: u in d.entries && d.entries[u].grupoId == Some(gid) ==> Info(d, u) in r
  {
    var m := Members(d, gid);
    var l := Listing(d, m);
    var r := SortBy(l, NameKey);
    SortBySorted(l, NameKey);
    forall u | u in d.entries && d.entries[u].grupoId == Some(gid) ensures Info(d, u) in r {
      var i :| 0 <= i < |m| && m[i] == u;
      assert l[i] == Info(d, u);
      assert Info(d, u) in multiset(l);
    }
  }

  /** `registrar_alumno_grupo`: a student enrolled in a registered group gets the
      id `<group>-<n>` with `n` one more than the group's size, an empty
      template and the group; whatever was stored at that id is replaced. */
  method RegistrarAlumnoGrupo(reg: GroupRegistry, db: FingerprintDatabase, gid: string, name: Option<string>, now: Now)
    returns (r: Result<string, AppError>)
    requires reg.Valid() && db.Valid()
    modifies db
    ensures db.Valid()
    ensures gid !in reg.grupos.entries ==> r == Err(GroupNotFound)
    ensures gid in reg.grupos.entries && name.None? ==> r == Err(NameRequired)
    ensures gid in reg.grupos.entries && name.Some? && Strip(name.value) == [] ==> r == Err(NameBlank)
    ensures r.Err? ==> db.fingerprints == old(db.fingerprints)
    ensures r.Ok? ==>
              && gid in reg.grupos.entries && name.Some? && Strip(name.value) != []
              && r.value == StudentId(gid, CountInGroup(old(db.fingerprints), gid) + 1)
              && db.fingerprints == Put(old(db.fingerprints), r.value,
                                        Student(Strip(name.value), [], now.iso, Some(gid), []))
  {
    if gid !in reg.grupos.entries {
      return Err(GroupNotFound);
    }
    if name.None? {
      return Err(NameRequired);
    }
    var nombre := Strip(name.value);
    if nombre == [] {
      return Err(NameBlank);
    }
    var alumnosEnGrupo := CountInGroup(db.fingerprints, gid);
    var userId := StudentId(gid, alumnosEnGrupo + 1);
    db.AddFingerprint(userId, [], nombre, now.iso);
    var record := db.fingerprints.entries[userId];
    PutTwice(old(db.fingerprints), userId, record, record.(grupoId := Some(gid)));
    db.fingerprints := Put(db.fingerprints, userId, record.(grupoId := Some(gid)));
    return Ok(userId);
  }

  /** Enrolling a student in a registered group leaves every student's group
      registered. */
  lemma EnrolResolves(g: Groups, d: Store, u: string, s: Student)
    requires OrderedDict.Valid(d) && GroupsResolve(g, d)
    requires s.grupoId.None? || s.grupoId.value in g.entries
    ensures GroupsResolve(g, Put(d, u, s))
  {
  }

  // ------------------------------------------------------------ attendance

  /** The store once `a` is appended to the attendances of student `u`. */
  function WithAttendance(d: Store, u: string, a: Attendance): (r: Store)
    requires OrderedDict.Valid(d) && u in d.entries
    ensures OrderedDict.Valid(r) && r.keys == d.keys
  {
    var s := d.entries[u];
    Put(d, u, s.(asistencias := s.asistencias + [a]))
  }

  /** `registrar_asistencia_manual`: one entry for a known student, of kind
      `tipo`, `manual` when none is given. */
  method RegistrarAsistenciaManual(db: FingerprintDatabase, alumnoId: string, tipo: Option<string>, now: Now)
    returns (r: Result<Attendance, AppError>)
    requires db.Valid()
    modifies db
    ensures db.Valid()
    ensures alumnoId !in old(db.fingerprints.entries) <==> r == Err(StudentNotFound)
    ensures r.Err? ==> db.fingerprints == old(db.fingerprints)
    ensures r.Ok? ==>
              && r.value == Attendance(alumnoId, old(db.fingerprints.entries[alumnoId].name), now.iso,
                                       now.fecha, now.hora, Some(tipo.GetOr("manual")))
              && db.fingerprints == WithAttendance(old(db.fingerprints), alumnoId, r.value)
  {
    if alumnoId !in db.fingerprints.entries {
      return Err(StudentNotFound);
    }
    var alumno := db.fingerprints.entries[alumnoId];
    var asistencia := Attendance(alumnoId, alumno.name, now.iso, now.fecha, now.hora, Some(tipo.GetOr("manual")));
    db.fingerprints := WithAttendance(db.fingerprints, alumnoId, asistencia);
    return Ok(asistencia);
  }

  datatype Verification =
    | CaptureFailed              // no template came back from the reader
    | NotRecognized              // nobody was identified
    | OtherGroup(userId: string) // identified, but outside the requested group
    | Recorded(userId: string, asistencia: Attendance)

  /** The group filter of `verificar_asistencia` applies only when the request
      names a non-empty group. */
  predicate Scoped(grupo: Option<string>) {
    grupo.Some? && grupo.value != ""
  }

  /** `verificar_asistencia` once the reader has been asked for a template:
      identify the template, check the requested group, and append one entry
      without a kind. */
  method VerificarAsistencia(db: FingerprintDatabase, captured: Option<Template>, sdkLoaded: bool, sdk: Comparator,
                             grupo: Option<string>, now: Now)
    returns (r: Verification)
    requires db.Valid()
    modifies db
    ensures db.Valid()
    ensures !Captured(captured) <==> r == CaptureFailed
    ensures r.NotRecognized? ==>
              forall w: nat :: !Identifies(old(db.fingerprints), captured.value, DefaultThreshold, sdkLoaded, sdk, w)
    ensures r.OtherGroup? || r.Recorded? ==>
              && Captured(captured)
              && r.userId in old(db.fingerprints.entries)
              && exists w: nat :: Identifies(old(db.fingerprints), captured.value, DefaultThreshold, sdkLoaded, sdk, w)
                                  && old(db.fingerprints.keys[w]) == r.userId
    ensures r.OtherGroup? ==> Scoped(grupo) && old(db.fingerprints.entries[r.userId].grupoId) != grupo
    ensures r.Recorded? ==>
              && (Scoped(grupo) ==> old(db.fingerprints.entries[r.userId].grupoId) == grupo)
              && r.asistencia == Attendance(r.userId, old(db.fingerprints.entries[r.userId].name), now.iso,
                                            now.fecha, now.hora, None)
              && db.fingerprints == WithAttendance(old(db.fingerprints), r.userId, r.asistencia)
    ensures !r.Recorded? ==> db.fingerprints == old(db.fingerprints)
  {
    if !Captured(captured) {
      return CaptureFailed;
    }
    var userId := db.IdentifyFingerprint(captured.value, DefaultThreshold, sdkLoaded, sdk);
    if userId.None? {
      return NotRecognized;
    }
    var u := userId.value;
    var alumno := db.fingerprints.entries[u];
    if Scoped(grupo) && alumno.grupoId != grupo {
      return OtherGroup(u);
    }
    var asistencia := Attendance(u, alumno.name, now.iso, now.fecha, now.hora, None);
    db.fingerprints := WithAttendance(db.fingerprints, u, asistencia);
    return Recorded(u, asistencia);
  }

  // ------------------------------------------------------------ statistics

  /** `sum(1 for a in … if 'template' in a and len(a['template']) > 0)` over `keys`. */
  function WithTemplate(d: Store, keys: seq<string>): (n: nat)
    requires forall k :: k in keys ==> k in d.entries
    ensures n <= |keys|
  {
    if keys == [] then 0
    else WithTemplate(d, keys[..|keys| - 1]) + (if |d.entries[keys[|keys| - 1]].template| > 0 then 1 else 0)
  }

  /** `sum(len(a.get('asistencias', [])) for a in …)` over `keys`. */
  function AttendanceCount(d: Store, keys: seq<string>): nat
    requires forall k :: k in keys ==> k in d.entries
  {
    if keys == [] then 0
    else AttendanceCount(d, keys[..|keys| - 1]) + |d.entries[keys[|keys| - 1]].asistencias|
  }

  /** All attendance entries, student by student in insertion order. */
  function AllAttendances(d: Store, keys: seq<string>): (r: seq<Attendance>)
    requires forall k :: k in keys ==> k in d.entries
    ensures |r| == AttendanceCount(d, keys)
  {
    if keys == [] then []
    else AllAttendances(d, keys[..|keys| - 1]) + d.entries[keys[|keys| - 1]].asistencias
  }

  /** The per-date counter after one more entry dated `fecha`. */
  function Bump(c: Dict<string, nat>, fecha: string): (r: Dict<string, nat>)
    requires OrderedDict.Valid(c)
    ensures OrderedDict.Valid(r)
  {
    Put(c, fecha, (if fecha in c.entries then c.entries[fecha] else 0) + 1)
  }

  /** The loop that fills `asistencias_por_fecha`: entries with an empty date are
      skipped. */
  function Tally(c: Dict<string, nat>, entries: seq<Attendance>): (r: Dict<string, nat>)
    requires OrderedDict.Valid(c)
    ensures OrderedDict.Valid(r)
    decreases |entries|
  {
    if entries == [] then c
    else Tally(if entries[0].fecha != "" then Bump(c, entries[0].fecha) else c, entries[1..])
  }

  datatype GroupStats = GroupStats(nombre: string, carreraTecnica: string, totalAlumnos: nat,
                                   alumnosConHuella: nat, totalAsistencias: nat)

  datatype Stats = Stats(totalAlumnos: nat, alumnosConHuella: nat, alumnosSinHuella: int,
                         totalAsistencias: nat, totalGrupos: nat,
                         estadisticasGrupos: Dict<string, GroupStats>,
                         asistenciasPorFecha: Dict<string, nat>)

  function StatsOfGroup(d: Store, gid: string, g: Group): GroupStats
    requires OrderedDict.Valid(d)
  {
    var m := Members(d, gid);
    GroupStats(g.nombre, g.carreraTecnica, |m|, WithTemplate(d, m), AttendanceCount(d, m))
  }

  /** `obtener_estadisticas`. */
  function ObtenerEstadisticas(d: Store, g: Groups): (s: Stats)
    requires OrderedDict.Valid(d) && OrderedDict.Valid(g)
    ensures s.estadisticasGrupos.keys == g.keys
  {
    var total := |d.keys|;
    var conHuella := WithTemplate(d, d.keys);
    Stats(total, conHuella, total - conHuella, AttendanceCount(d, d.keys), |g.keys|,
          Dict(g.keys, map gid | gid in g.entries :: StatsOfGroup(d, gid, g.entries[gid])),
          Tally(Empty(), AllAttendances(d, d.keys)))
  }

  /** The sum of the counts stored under `keys`. */
  function SumOver(keys: seq<string>, m: map<string, nat>): nat
    requires forall k :: k in keys ==> k in m
  {
    if keys == [] then 0 else SumOver(keys[..|keys| - 1], m) + m[keys[|keys| - 1]]
  }

  function Total(c: Dict<string, nat>): nat
    requires OrderedDict.Valid(c)
  {
    SumOver(c.keys, c.entries)
  }

  /** Changing the count of a key listed once raises the sum by the difference. */
  lemma {:induction false} SumOverUpdate(keys: seq<string>, m: map<string, nat>, k: string, v: nat)
    requires forall j :: j in keys ==> j in m
    requires Distinct(keys) && k in keys
    ensures SumOver(keys, m[k := v]) == SumOver(keys, m) - m[k] + v
  {
    var init := keys[..|keys| - 1];
    var last := keys[|keys| - 1];
    if last == k {
      assert k !in init;
      SumOverUnchanged(init, m, k, v);
    } else {
      assert k in init;
      SumOverUpdate(init, m, k, v);
    }
  }

  lemma {:induction false} SumOverUnchanged(keys: seq<string>, m: map<string, nat>, k: string, v: nat)
    requires forall j :: j in keys ==> j in m
    requires k !in keys
    ensures SumOver(keys, m[k := v]) == SumOver(keys, m)
  {
    if keys != [] {
      SumOverUnchanged(keys[..|keys| - 1], m, k, v);
    }
  }

  /** One more entry on a date raises the sum of the per-date counts by one. */
  lemma BumpTotal(c: Dict<string, nat>, fecha: string)
    requires OrderedDict.Valid(c)
    ensures Total(Bump(c, fecha)) == Total(c) + 1
  {
    if fecha in c.entries {
      SumOverUpdate(c.keys, c.entries, fecha, c.entries[fecha] + 1);
    } else {
      var r := Bump(c, fecha);
      assert r.keys[..|r.keys| - 1] == c.keys;
      SumOverUnchanged(c.keys, c.entries, fecha, 1);
    }
  }

  /** The entries that carry a date. */
  function Dated(entries: seq<Attendance>): (n: nat)
    ensures n <= |entries|
  {
    if entries == [] then 0 else (if entries[0].fecha != "" then 1 else 0) + Dated(entries[1..])
  }

  /** The counter ends up counting every dated entry once. */
  lemma {:induction false} TallyTotal(c: Dict<string, nat>, entries: seq<Attendance>)
    requires OrderedDict.Valid(c)
    ensures Total(Tally(c, entries)) == Total(c) + Dated(entries)
    decreases |entries|
  {
    if entries != [] {
      var c' := if entries[0].fecha != "" then Bump(c, entries[0].fecha) else c;
      if entries[0].fecha != "" {
        BumpTotal(c, entries[0].fecha);
      }
      TallyTotal(c', entries[1..]);
    }
  }

  /** The statistics agree with each other: students without a template are the
      rest of the students, and the per-date counts add up to the dated entries,
      which are at most all the entries. */
  lemma StatsConsistent(d: Store, g: Groups)
    requires OrderedDict.Valid(d) && OrderedDict.Valid(g)
    ensures var s := ObtenerEstadisticas(d, g);
      && s.alumnosSinHuella == s.totalAlumnos - s.alumnosConHuella >= 0
      && s.totalAlumnos == |d.entries|
      && s.totalGrupos == |g.entries|
      && Total(s.asistenciasPorFecha) == Dated(AllAttendances(d, d.keys)) <= s.totalAsistencias
  {
    SizeIsKeyCount(d);
    SizeIsKeyCount(g);
    TallyTotal(Empty(), AllAttendances(d, d.keys));
  }

  /** Counting attendances over a list of distinct keys after one more entry for
      a listed student. */
  lemma {:induction false} AttendanceCountAdded(d: Store, keys: seq<string>, u: string, a: Attendance)
    requires OrderedDict.Valid(d) && u in d.entries
    requires Distinct(keys) && forall k :: k in keys ==> k in d.entries
    ensures AttendanceCount(WithAttendance(d, u, a), keys) == AttendanceCount(d, keys) + (if u in keys then 1 else 0)
  {
    if keys != [] {
      var init := keys[..|keys| - 1];
      AttendanceCountAdded(d, init, u, a);
      assert u in keys <==> u in init || u == keys[|keys| - 1];
    }
  }

  /** Recording one attendance, manual or by fingerprint, raises the total by one. */
  lemma AttendanceAddsOne(d: Store, g: Groups, u: string, a: Attendance)
    requires OrderedDict.Valid(d) && OrderedDict.Valid(g) && u in d.entries
    ensures ObtenerEstadisticas(WithAttendance(d, u, a), g).totalAsistencias
         == ObtenerEstadisticas(d, g).totalAsistencias + 1
  {
    AttendanceCountAdded(d, d.keys, u, a);
  }

  // ------------------------------------------------------- the export matrix

  datatype Entry = Entry(userId: string, student: Student)

  /** The students the export covers: the group's when a non-empty group is
      asked for, otherwise all of them, in insertion order. */
  function Selected(d: Store, grupo: Option<string>): (r: seq<Entry>)
    requires OrderedDict.Valid(d)
    ensures forall e :: e in r ==> e.userId in d.entries && e.student == d.entries[e.userId]
    ensures forall u :: u in d.entries && (!Scoped(grupo) || d.entries[u].grupoId == grupo) ==>
              Entry(u, d.entries[u]) in r
    ensures Scoped(grupo) ==> forall e :: e in r ==> e.student.grupoId == grupo
    ensures Distinct(UserIds(r)) && Subsequence(UserIds(r), d.keys)
  {
    SubsequenceOfSelf(d.keys);
    EntriesFor(d, if Scoped(grupo) then Members(d, grupo.value) else d.keys)
  }

  /** The students of a list of entries, in order. */
  function UserIds(es: seq<Entry>): seq<string> {
    seq(|es|, i requires 0 <= i < |es| => es[i].userId)
  }

  /** The entries of the listed students, in the order of the list. */
  function EntriesFor(d: Store, ids: seq<string>): (r: seq<Entry>)
    requires forall u :: u in ids ==> u in d.entries
    ensures forall e :: e in r ==> e.userId in ids && e.student == d.entries[e.userId]
    ensures forall u :: u in ids ==> Entry(u, d.entries[u]) in r
    ensures UserIds(r) == ids
  {
    var r := seq(|ids|, i requires 0 <= i < |ids| => Entry(ids[i], d.entries[ids[i]]));
    assert forall u :: u in ids ==> Entry(u, d.entries[u]) == r[IndexOf(ids, u)];
    r
  }

  function EntryKey(e: Entry): string {
    Upper(e.student.name)
  }

  /** The student has an entry on that date. */
  predicate AttendedOn(s: Student, fecha: string) {
    HasDate(s.asistencias, fecha)
  }

  /** Some entry is dated `fecha`. */
  predicate HasDate(entries: seq<Attendance>, fecha: string) {
    exists a :: a in entries && a.fecha == fecha
  }

  /** Adds a date to a strictly increasing list of dates, unless it is there. */
  function InsertDate(f: string, ds: seq<string>): (r: seq<string>)
    requires StrictlyIncreasing(ds)
    ensures StrictlyIncreasing(r)
    ensures forall x :: x in r <==> x == f || x in ds
  {
    if ds == [] then [f]
    else if f == ds[0] then ds
    else if Less(f, ds[0]) then
      BelowFirst(f, ds);
      PrependIncreasing(f, ds);
      [f] + ds
    else
      LessTotal(f, ds[0]);
      var t := InsertDate(f, ds[1..]);
      assert forall x :: x in t ==> Less(ds[0], x);
      PrependIncreasing(ds[0], t);
      [ds[0]] + t
  }

  predicate StrictlyIncreasing(ds: seq<string>) {
    forall i, j :: 0 <= i < j < |ds| ==> Less(ds[i], ds[j])
  }

  lemma BelowFirst(f: string, ds: seq<string>)
    requires StrictlyIncreasing(ds) && ds != [] && Less(f, ds[0])
    ensures forall x :: x in ds ==> Less(f, x)
  {
    forall x | x in ds ensures Less(f, x) {
      var j :| 0 <= j < |ds| && ds[j] == x;
      if j > 0 {
        LessTransitive(f, ds[0], ds[j]);
      }
    }
  }

  lemma PrependIncreasing(f: string, ds: seq<string>)
    requires StrictlyIncreasing(ds)
    requires forall x :: x in ds ==> Less(f, x)
    ensures StrictlyIncreasing([f] + ds)
  {
    var r := [f] + ds;
    forall i, j | 0 <= i < j < |r| ensures Less(r[i], r[j]) {
      if i == 0 {
        assert r[j] == ds[j - 1];
      } else {
        assert r[i] == ds[i - 1] && r[j] == ds[j - 1];
      }
    }
  }

  /** `sorted(fechas_set)` for the non-empty dates of some entries. */
  function SortedDates(entries: seq<Attendance>): (r: seq<string>)
    ensures StrictlyIncreasing(r)
    ensures forall f :: f in r <==> f != "" && HasDate(entries, f)
  {
    if entries == [] then []
    else
      var rest := SortedDates(entries[1..]);
      assert forall a :: a in entries <==> a == entries[0] || a in entries[1..];
      if entries[0].fecha == "" then rest else InsertDate(entries[0].fecha, rest)
  }

  /** The attendance entries of a list of students, one after the other. */
  function EntriesOf(es: seq<Entry>): (r: seq<Attendance>)
    ensures forall a :: a in r <==> exists e :: e in es && a in e.student.asistencias
  {
    if es == [] then [] else es[0].student.asistencias + EntriesOf(es[1..])
  }

  datatype Row = Row(nombre: string, cells: seq<char>)

  datatype Matrix = Matrix(fechas: seq<string>, rows: seq<Row>)

  /** One row: `*` under each date the student attended, `/` under the others. */
  function RowOf(e: Entry, fechas: seq<string>): (r: Row)
    ensures r.nombre == e.student.name && |r.cells| == |fechas|
    ensures forall j :: 0 <= j < |fechas| ==>
              (r.cells[j] == '*' <==> AttendedOn(e.student, fechas[j]))
              && (r.cells[j] == '*' || r.cells[j] == '/')
  {
    Row(e.student.name, seq(|fechas|, j requires 0 <= j < |fechas| =>
      if AttendedOn(e.student, fechas[j]) then '*' else '/'))
  }

  /** The attendance matrix behind `descargar_excel_asistencias`: students sorted
      by upper-cased name, dates in ascending order. */
  function AttendanceMatrix(d: Store, grupo: Option<string>): (m: Matrix)
    requires OrderedDict.Valid(d)
    ensures |m.rows| == |Selected(d, grupo)|
  {
    var alumnos := SortBy(Selected(d, grupo), EntryKey);
    SortBySorted(Selected(d, grupo), EntryKey);
    var fechas := SortedDates(EntriesOf(alumnos));
    assert |alumnos| == |multiset(alumnos)| == |multiset(Selected(d, grupo))|;
    Matrix(fechas, seq(|alumnos|, i requires 0 <= i < |alumnos| => RowOf(alumnos[i], fechas)))
  }

  /** The matrix's columns are exactly the dates some selected student attended,
      in strictly ascending order; its rows are the selected students in name
      order; each cell says whether that student attended on that date. */
  lemma MatrixShape(d: Store, grupo: Option<string>)
    requires OrderedDict.Valid(d)
    ensures var m := AttendanceMatrix(d, grupo);
      var alumnos := SortBy(Selected(d, grupo), EntryKey);
      && StrictlyIncreasing(m.fechas)
      && (forall f :: f in m.fechas <==> f != "" && exists e :: e in Selected(d, grupo) && AttendedOn(e.student, f))
      && SortedBy(alumnos, EntryKey)
      && multiset(alumnos) == multiset(Selected(d, grupo))
      && (forall i :: 0 <= i < |m.rows| ==> m.rows[i] == RowOf(alumnos[i], m.fechas))
  {
    var sel := Selected(d, grupo);
    var alumnos := SortBy(sel, EntryKey);
    SortBySorted(sel, EntryKey);
    forall f ensures HasDate(EntriesOf(alumnos), f) <==> exists e :: e in sel && AttendedOn(e.student, f) {
      DatesOfEntries(alumnos, sel, f);
    }
  }

  /** A date occurs among the entries of some students exactly when one of them
      attended on it. */
  lemma DatesOfEntries(es: seq<Entry>, sel: seq<Entry>, f: string)
    requires multiset(es) == multiset(sel)
    ensures HasDate(EntriesOf(es), f) <==> exists e :: e in sel && AttendedOn(e.student, f)
  {
    if HasDate(EntriesOf(es), f) {
      var a :| a in EntriesOf(es) && a.fecha == f;
      var e :| e in es && a in e.student.asistencias;
      assert e in multiset(es);
      assert e in sel && AttendedOn(e.student, f);
    }
    if exists e :: e in sel && AttendedOn(e.student, f) {
      var e :| e in sel && AttendedOn(e.student, f);
      assert e in multiset(sel);
      var a :| a in e.student.asistencias && a.fecha == f;
      assert a in EntriesOf(es);
    }
  }

  // ------------------------------------------------------------ collisions

  /** The sequential group id is not fresh once a group has been deleted: with
      only `GRP-002` left, the next group is written over it. */
  lemma GroupIdCollision()
    ensures var g: Groups := Dict(["GRP-002"], map["GRP-002" := Group("B", "", "")]);
      OrderedDict.Valid(g) && NextGroupId(g) in g.entries
  {
    var g: Groups := Dict(["GRP-002"], map["GRP-002" := Group("B", "", "")]);
    Pad3Of2();
    assert NextGroupId(g) == "GRP-" + "002" == "GRP-002";
  }

  lemma Pad3Of2()
    ensures Pad3(2) == "002"
  {
    assert Decimal(2) == [DigitChar(2)] == "2";
    assert Zeros(2) == Zeros(1) + ['0'] == "00";
  }

  /** The same holds for student ids: once `GRP-001-001` is deleted, the next
      student enrolled in `GRP-001` is written over `GRP-001-002`. */
  lemma StudentIdCollision()
    ensures var d: Store := Dict(["GRP-001-002"], map["GRP-001-002" := Student("B", [], "", Some("GRP-001"), [])]);
      OrderedDict.Valid(d) && StudentId("GRP-001", CountInGroup(d, "GRP-001") + 1) in d.entries
  {
    var d: Store := Dict(["GRP-001-002"], map["GRP-001-002" := Student("B", [], "", Some("GRP-001"), [])]);
    assert MembersIn(d, d.keys[..0], "GRP-001") == [];
    assert Members(d, "GRP-001") == ["GRP-001-002"];
    Pad3Of2();
    assert StudentId("GRP-001", 2) == "GRP-001" + "-" + "002" == "GRP-001-002";
  }
}
