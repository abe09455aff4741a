/** The roll-call screen: one student of a group at a time, the index of the
    current student, and the set of students whose attendance was recorded in
    this session.  The server's answers, the confirmation dialog and the
    1.5-second timer are inputs: a handler that starts the timer returns the
    index it captured, and the caller decides when `TimerFires` runs. */
module RollCall {
  import opened Wrappers

  /** The answer of `ApiService.verificarAsistencia`. */
  datatype Response =
    | Found(userId: string)   // `encontrado` with the student's id
    | NotFound                // `encontrado` false
    | Failed                  // the request threw

  /** The ids of a list of students. */
  function Ids(alumnos: seq<string>): set<string> {
    set u | u in alumnos
  }

  /** A list has at least as many entries as distinct ids. */
  lemma {:induction false} IdsBound(alumnos: seq<string>)
    ensures |Ids(alumnos)| <= |alumnos|
  {
    if alumnos != [] {
      var rest := alumnos[1..];
      IdsBound(rest);
      assert Ids(alumnos) == Ids(rest) + {alumnos[0]};
    }
  }

  class RollCall {
    /** The group's students (their `user_id`s), fixed for the screen. */
    const alumnos: seq<string>
    /** `indiceActual`. */
    var indice: int
    /** `asistenciasRegistradas`. */
    var marcados: set<string>

    ghost predicate Valid()
      reads this
    {
      && 0 <= indice
      && (|alumnos| == 0 ==> indice == 0)
      && (|alumnos| > 0 ==> indice < |alumnos|)
      && marcados <= Ids(alumnos)
    }

    constructor (alumnos: seq<string>)
      ensures Valid()
      ensures this.alumnos == alumnos && indice == 0 && marcados == {}
    {
      this.alumnos := alumnos;
      indice := 0;
      marcados := {};
    }

    /** `alumnoActual`: `undefined` when the group has no students. */
    function AlumnoActual(): (r: Option<string>)
      requires Valid()
      reads this
      ensures r.None? <==> |alumnos| == 0
      ensures r.Some? ==> r.value in alumnos
    {
      if |alumnos| == 0 then None else Some(alumnos[indice])
    }

    /** `yaTieneAsistencia`. */
    function YaTieneAsistencia(): (r: bool)
      requires Valid()
      reads this
      ensures r <==> AlumnoActual().Some? && AlumnoActual().value in marcados
    {
      |alumnos| > 0 && alumnos[indice] in marcados
    }

    /** `alumnosConAsistencia`, the size of the marked set: never more than the
        number of students. */
    function AlumnosConAsistencia(): (n: nat)
      requires Valid()
      reads this
      ensures n <= |alumnos|
    {
      IdsBound(alumnos);
      assert |marcados| <= |Ids(alumnos)| by {
        SubsetCard(marcados, Ids(alumnos));
      }
      |marcados|
    }

    /** `handleSiguiente`: one step forward, except at the last student. */
    method Siguiente()
      requires Valid()
      modifies this
      ensures Valid() && marcados == old(marcados)
      ensures indice == if old(indice) < |alumnos| - 1 then old(indice) + 1 else old(indice)
      ensures old(indice) <= indice
    {
      if indice < |alumnos| - 1 {
        indice := indice + 1;
      }
    }

    /** `handleAnterior`: one step back, except at the first student. */
    method Anterior()
      requires Valid()
      modifies this
      ensures Valid() && marcados == old(marcados)
      ensures indice == if old(indice) > 0 then old(indice) - 1 else old(indice)
      ensures indice <= old(indice)
    {
      if indice > 0 {
        indice := indice - 1;
      }
    }

    /** Pressing "Verificar" or "Asistencia manual": the handler does nothing
        without a current student; otherwise its closure holds the index of the
        student shown at the press, and the answer is handled against that
        student however the screen moves while the request is pending. */
    function Press(): (pending: Option<int>)
      requires Valid()
      reads this
      ensures pending.None? <==> AlumnoActual().None?
      ensures pending.Some? ==> 0 <= pending.value < |alumnos| && alumnos[pending.value] == AlumnoActual().value
    {
      if |alumnos| == 0 then None else Some(indice)
    }

    /** `handleVerificarHuella` once the server has answered a press made at
        index `captured`: the student shown at the press is marked only when the
        server found that very student, and then the auto-advance timer starts
        with the same captured index.  The current index is left alone. */
    method VerificarHuella(captured: int, response: Response) returns (timer: Option<int>)
      requires Valid() && 0 <= captured < |alumnos|
      modifies this
      ensures Valid() && indice == old(indice)
      ensures response == Found(alumnos[captured]) ==>
                marcados == old(marcados) + {alumnos[captured]} && timer == Some(captured)
      ensures response != Found(alumnos[captured]) ==> marcados == old(marcados) && timer == None
      ensures response == Found(alumnos[captured]) && indice == captured ==> YaTieneAsistencia()
      ensures old(marcados) <= marcados
    {
      var pressed := alumnos[captured];
      if response.Found? && response.userId == pressed {
        marcados := marcados + {pressed};
        return Some(captured);
      }
      return None;
    }

    /** `handleAsistenciaManual` once the server has answered a press made at
        index `captured`: the dialog is answered at the press, and the student
        shown then is marked only when it was confirmed and the request succeeded. */
    method AsistenciaManual(captured: int, confirmed: bool, apiOk: bool) returns (timer: Option<int>)
      requires Valid() && 0 <= captured < |alumnos|
      modifies this
      ensures Valid() && indice == old(indice)
      ensures confirmed && apiOk ==> marcados == old(marcados) + {alumnos[captured]} && timer == Some(captured)
      ensures !(confirmed && apiOk) ==> marcados == old(marcados) && timer == None
      ensures confirmed && apiOk && indice == captured ==> YaTieneAsistencia()
      ensures old(marcados) <= marcados
    {
      if !confirmed || !apiOk {
        return None;
      }
      marcados := marcados + {alumnos[captured]};
      return Some(captured);
    }

    /** The select of the current student: any of the group's indices. */
    method Seleccionar(i: int)
      requires Valid() && 0 <= i < |alumnos|
      modifies this
      ensures Valid() && marcados == old(marcados) && indice == i
      ensures AlumnoActual() == Some(alumnos[i])
    {
      indice := i;
    }

    /** The timer's call to `handleSiguiente`: the closure was created in the
        render where the button was pressed, so it steps from the index it
        captured then, not from the current one. */
    method TimerFires(captured: int)
      requires Valid() && 0 <= captured < |alumnos|
      modifies this
      ensures Valid() && marcados == old(marcados)
      ensures indice == if captured < |alumnos| - 1 then captured + 1 else old(indice)
    {
      if captured < |alumnos| - 1 {
        indice := captured + 1;
      }
    }
  }

  /** A subset has at most as many elements as its superset. */
  lemma SubsetCard(a: set<string>, b: set<string>)
    requires a <= b
    ensures |a| <= |b|
  {
    assert b == a + (b - a);
  }

  /** The student at index 0 is recognised; before the timer fires, the user
      steps forward twice; the timer then moves the screen back to index 1. */
  method StaleTimerMovesBack() returns (before: int, after: int)
    ensures before == 2 && after == 1
  {
    var screen := new RollCall(["A-001", "A-002", "A-003"]);
    var pressed := screen.Press();
    var timer := screen.VerificarHuella(pressed.value, Found("A-001"));
    screen.Siguiente();
    screen.Siguiente();
    before := screen.indice;
    screen.TimerFires(timer.value);
    after := screen.indice;
  }

  /** The same clicks when the timer steps from the index current when it fires
      (a functional update of the index): the screen stays at index 2. */
  method FreshTimerKeepsPlace() returns (before: int, after: int)
    ensures before == 2 && after == 2
  {
    var screen := new RollCall(["A-001", "A-002", "A-003"]);
    var pressed := screen.Press();
    var timer := screen.VerificarHuella(pressed.value, Found("A-001"));
    screen.Siguiente();
    screen.Siguiente();
    before := screen.indice;
    screen.Siguiente();
    after := screen.indice;
  }

  /** The user steps forward while the fingerprint request is pending: the
      answer still marks the student shown at the press, not the one shown now,
      and the timer holds the press-time index. */
  method AnswerAfterNavigation() returns (marked: set<string>, shownMarked: bool, timer: Option<int>)
    ensures marked == {"A-001"} && !shownMarked && timer == Some(0)
  {
    var screen := new RollCall(["A-001", "A-002", "A-003"]);
    var pressed := screen.Press();
    screen.Siguiente();
    timer := screen.VerificarHuella(pressed.value, Found("A-001"));
    marked := screen.marcados;
    shownMarked := screen.YaTieneAsistencia();
  }
}
