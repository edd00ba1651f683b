/**
 * The daily adherence log: one row per submitted day with the five meal
 * slots (breakfast, first snack, lunch, second snack, dinner), a mood and a
 * free-text comment; the rows seeded for a new session; and the "today" /
 * "last 7 days" view of the table.
 */
module DailyLogs {
  import opened Tables

  /** The four mood options of the daily form. */
  datatype Mood = MuyBien | Bien | Regular | Mal

  /** The columns of a daily-log row besides its date. */
  datatype Entry = Entry(
    desayuno: bool,
    colacion1: bool,
    comida: bool,
    colacion2: bool,
    cena: bool,
    mood: Mood,
    comentarios: string)

  /** A row of the daily-log table. */
  type DailyLog = Row<Entry>

  /** The five meal slots, in column order. */
  function Slots(e: Entry): seq<bool>
  {
    [e.desayuno, e.colacion1, e.comida, e.colacion2, e.cena]
  }

  /** A day is complete when every one of the five meal slots was met. */
  predicate Complete(e: Entry)
  {
    e.desayuno && e.colacion1 && e.comida && e.colacion2 && e.cena
  }

  /** The number of meal slots met on a day. */
  function SlotCount(e: Entry): (n: int)
    ensures 0 <= n <= 5
    ensures n == 5 <==> Complete(e)
    ensures n == 0 <==> true !in Slots(e)
  {
    (if e.desayuno then 1 else 0) + (if e.colacion1 then 1 else 0) + (if e.comida then 1 else 0)
    + (if e.colacion2 then 1 else 0) + (if e.cena then 1 else 0)
  }

  /** The comment every seeded row carries. */
  const SeedComment: string := "Registro simulado."

  /**
   * The entry of a seeded day on which `cumplidas` slots were met: the first
   * `cumplidas` slots in column order are met and the rest are not.
   */
  function SeedEntry(cumplidas: int): (e: Entry)
    requires 0 <= cumplidas <= 5
    ensures SlotCount(e) == cumplidas
    ensures forall k :: 0 <= k < 5 ==> Slots(e)[k] == (k < cumplidas)
    ensures e.mood == Bien && e.comentarios == SeedComment
  {
    var valores := seq(5, k => k < cumplidas);
    Entry(valores[0], valores[1], valores[2], valores[3], valores[4], Bien, SeedComment)
  }

  /**
   * The daily logs a new session starts with: one row for each of the seven
   * days ending `today`, oldest first; the day `i` days before today has
   * `5 - i % 3` slots met.
   */
  method SeedDailyLogs(today: Day) returns (registros: seq<DailyLog>)
    ensures |registros| == 7
    ensures StrictlyByDate(registros)
    ensures forall j :: 0 <= j < 7 ==> registros[j].date == today - 6 + j
    ensures forall j :: 0 <= j < 7 ==> registros[j].value == SeedEntry(5 - (6 - j) % 3)
  {
    registros := [];
    var i := 6;
    while i >= 0
      invariant -1 <= i <= 6
      invariant |registros| == 6 - i
      invariant forall j :: 0 <= j < |registros| ==> registros[j].date == today - 6 + j
      invariant forall j :: 0 <= j < |registros| ==> registros[j].value == SeedEntry(5 - (6 - j) % 3)
    {
      var d := today - i;
      var cumplidas := 5 - i % 3;
      registros := registros + [Row(d, SeedEntry(cumplidas))];
      i := i - 1;
    }
  }

  /** The two views of the recent-logs table. */
  datatype View = Hoy | UltimosSieteDias

  /**
   * The rows shown by a view: "Hoy" shows the rows dated today, "Últimos 7
   * días" every row dated seven days ago or later, with no upper bound.
   */
  function ViewRows(rows: seq<DailyLog>, view: View, today: Day): (r: seq<DailyLog>)
    ensures view == Hoy ==> forall x :: x in r <==> x in rows && x.date == today
    ensures view == UltimosSieteDias ==> forall x :: x in r <==> x in rows && today - 7 <= x.date
  {
    match view
    case Hoy => OnDate(rows, today)
    case UltimosSieteDias => Since(rows, today - 7)
  }
}
