/** The persistence protocol of the app as a step relation on values: the
    live quadrants, the dirty flag `updateLocalStorage`, and the storage slot
    under the key "quadrants". Each user event is one atomic step followed
    by the save step that runs when the quadrants change. */
module Persistence {

  import opened Wrappers
  import opened Matrix
  import opened Timestamp

  /** The text held in the storage slot or read from an import file, as far
      as the app can tell texts apart. `Snapshot(q)` is any text that
      `JSON.parse` reads as the record `q`; what `JSON.stringify` writes for
      `q` is one such text. `Blank` is the empty string, the one text
      JavaScript treats as false. `Unparsable` is text on which `JSON.parse`
      throws. */
  datatype Document = Snapshot(content: Quadrants) | Blank | Unparsable

  /** `JSON.stringify` of the record. */
  function Encode(qs: Quadrants): (d: Document)
    ensures Decode(d) == Some(qs)
    ensures !d.Blank?
  {
    Snapshot(qs)
  }

  /** `JSON.parse` of a document: `None` where it throws. */
  function Decode(d: Document): (r: Option<Quadrants>)
    ensures r.Some? <==> d.Snapshot?
    ensures r.Some? ==> d == Snapshot(r.value)
  {
    match d
    case Snapshot(qs) => Some(qs)
    case Blank => None
    case Unparsable => None
  }

  /** The state the app keeps: the live record, the dirty flag, and the slot
      (`None` when `getItem` returns null). */
  datatype State = State(quadrants: Quadrants, dirty: bool, storage: Option<Document>)

  /** The slot holds the live record, so the stored document decodes to it. */
  predicate InSync(s: State) {
    s.storage == Some(Encode(s.quadrants))
  }

  /** The slot holds a document that `if (savedQuadrants)` and
      `if (dataToExport)` accept: present and not the empty string. */
  predicate HasStoredDocument(s: State)
    ensures HasStoredDocument(s) <==>
      s.storage.Some? && (s.storage.value.Snapshot? || s.storage.value.Unparsable?)
  {
    s.storage.Some? && !s.storage.value.Blank?
  }

  /** The state before any effect has run: all quadrants empty, the flag
      clear, and the slot as the browser holds it. */
  function Initial(stored: Option<Document>): (r: State)
    ensures forall q :: r.quadrants.Get(q) == []
    ensures !r.dirty && r.storage == stored
  {
    State(Empty(), false, stored)
  }

  /** The save effect: when the flag is set, write the whole record to the
      slot and clear the flag; otherwise change nothing. */
  function SaveStep(s: State): (r: State)
    ensures !r.dirty
    ensures r.quadrants == s.quadrants
    ensures s.dirty ==> InSync(r)
    ensures !s.dirty ==> r == s
  {
    if s.dirty then State(s.quadrants, false, Some(Encode(s.quadrants))) else s
  }

  /** The load effect: a stored document that is present and not empty
      replaces the record; `None` when `JSON.parse` throws on it, which stops
      the app from starting. The save effect that follows finds the flag
      clear. */
  function LoadStep(s: State): (r: Option<State>)
    ensures r.None? <==> s.storage == Some(Unparsable)
    ensures r.Some? ==> r.value.storage == s.storage
    ensures r.Some? && !s.dirty ==> !r.value.dirty
    ensures r.Some? && HasStoredDocument(s) ==> InSync(r.value)
  {
    match s.storage
    case None => Some(s)
    case Some(d) =>
      if d.Blank? then Some(s)
      else
        match Decode(d)
        case Some(qs) => Some(SaveStep(s.(quadrants := qs)))
        case None => None
  }

  /** Start-up: the initial state followed by the load effect. */
  function Startup(stored: Option<Document>): (r: Option<State>)
    ensures r.None? <==> stored == Some(Unparsable)
    ensures r.Some? ==> !r.value.dirty && r.value.storage == stored
    ensures r.Some? && (stored == None || stored == Some(Blank)) ==> r.value.quadrants == Empty()
  {
    LoadStep(Initial(stored))
  }

  /** The add handler: the prompt's answer (`None` when cancelled) is
      appended when it is not empty, the flag is set, and the save effect
      runs. */
  function AddStep(s: State, q: QuadrantId, input: Option<string>): (r: State)
    ensures |r.quadrants.Get(q)| ==
      |s.quadrants.Get(q)| + (if input.Some? && input.value != "" then 1 else 0)
    ensures forall p :: p != q ==> r.quadrants.Get(p) == s.quadrants.Get(p)
    ensures !s.dirty ==> !r.dirty
    ensures input.Some? && input.value != "" ==> InSync(r)
  {
    if input.Some? && input.value != "" then
      SaveStep(s.(quadrants := Append(s.quadrants, q, input.value), dirty := true))
    else s
  }

  /** The delete handler: filter position `index` out of quadrant `q`, set
      the flag whatever the index, and run the save effect. */
  function DeleteStep(s: State, q: QuadrantId, index: int): (r: State)
    ensures |r.quadrants.Get(q)| ==
      if 0 <= index < |s.quadrants.Get(q)| then |s.quadrants.Get(q)| - 1 else |s.quadrants.Get(q)|
    ensures forall p :: p != q ==> r.quadrants.Get(p) == s.quadrants.Get(p)
    ensures InSync(r) && !r.dirty
  {
    SaveStep(s.(quadrants := RemoveAt(s.quadrants, q, index), dirty := true))
  }

  /** The import handler: the chosen file's text (`None` when no file was
      chosen) replaces the record when it parses; the flag is not touched,
      and the save effect runs. When `JSON.parse` throws, nothing is set. */
  function ImportStep(s: State, file: Option<Document>): (r: State)
    ensures forall qs :: file == Some(Snapshot(qs)) ==> r.quadrants == qs
    ensures r.storage == s.storage || InSync(r)
    ensures !s.dirty ==> r.storage == s.storage && !r.dirty
  {
    match file
    case None => s
    case Some(d) =>
      match Decode(d)
      case Some(qs) => SaveStep(s.(quadrants := qs))
      case None => s
  }

  /** What the export handler hands to the browser as a download. */
  datatype Download = Download(fileName: string, document: Document)

  /** The export handler: the stored document, not the live record, named
      after the current local time; nothing when the slot is empty. */
  function ExportStep(s: State, now: LocalTime): (r: Option<Download>)
    ensures r.Some? <==> HasStoredDocument(s)
    ensures r.Some? ==> r.value.document == s.storage.value && |r.value.fileName| >= 30 && r.value.fileName[..6] == "tasks_"
  {
    if HasStoredDocument(s) then Some(Download(ExportFileName(now), s.storage.value))
    else None
  }

  // ---------------------------------------------------------------------
  // Properties of the protocol

  /** Writing twice writes what writing once wrote. */
  lemma SaveStepIdempotent(s: State)
    ensures SaveStep(SaveStep(s)) == SaveStep(s)
    ensures !s.dirty ==> SaveStep(s).storage == s.storage
  {
  }

  /** Adding a non-empty text appends it to quadrant `q`, keeps the other
      quadrants, writes the new record to storage and clears the flag. */
  lemma AddStepAppends(s: State, q: QuadrantId, item: string)
    requires item != ""
    ensures var r := AddStep(s, q, Some(item));
      && r.quadrants.Get(q) == s.quadrants.Get(q) + [item]
      && (forall p :: p != q ==> r.quadrants.Get(p) == s.quadrants.Get(p))
      && r.storage == Some(Encode(r.quadrants))
      && !r.dirty
  {
    AppendSpec(s.quadrants, q, item);
  }

  /** A cancelled or empty prompt leaves the record, the flag and storage as
      they were; conversely any other answer changes the record. */
  lemma AddStepNoOpIff(s: State, q: QuadrantId, input: Option<string>)
    ensures AddStep(s, q, input) == s <==> input == None || input == Some("")
    ensures AddStep(s, q, input).quadrants == s.quadrants <==> input == None || input == Some("")
  {
    if input.Some? && input.value != "" {
      AppendSpec(s.quadrants, q, input.value);
      assert |AddStep(s, q, input).quadrants.Get(q)| != |s.quadrants.Get(q)|;
    }
  }

  /** Deleting an in-range position removes exactly that item from `q`,
      keeps the other quadrants, and leaves storage equal to the new record
      with the flag clear. */
  lemma DeleteStepInRange(s: State, q: QuadrantId, index: int)
    requires 0 <= index < |s.quadrants.Get(q)|
    ensures var r := DeleteStep(s, q, index);
      && r.quadrants.Get(q) == s.quadrants.Get(q)[..index] + s.quadrants.Get(q)[index + 1..]
      && |r.quadrants.Get(q)| == |s.quadrants.Get(q)| - 1
      && (forall p :: p != q ==> r.quadrants.Get(p) == s.quadrants.Get(p))
      && InSync(r)
      && !r.dirty
  {
    RemoveAtInRange(s.quadrants, q, index);
  }

  /** Deleting a position outside `q` keeps the record, but the flag was set,
      so the record is still written to storage. */
  lemma DeleteStepOutOfRange(s: State, q: QuadrantId, index: int)
    requires index < 0 || index >= |s.quadrants.Get(q)|
    ensures var r := DeleteStep(s, q, index);
      r.quadrants == s.quadrants && InSync(r) && !r.dirty
  {
    RemoveAtOutOfRange(s.quadrants, q, index);
  }

  /** After an add that appends something, and after every delete, the slot
      holds the live record. */
  lemma EditsPersist(s: State, q: QuadrantId, input: Option<string>, index: int)
    ensures input.Some? && input.value != "" ==> InSync(AddStep(s, q, input))
    ensures InSync(DeleteStep(s, q, index))
  {
  }

  /** Every step leaves the flag clear, so the flag is clear whenever a user
      event arrives. */
  lemma StepsClearFlag(s: State, q: QuadrantId, input: Option<string>, index: int, file: Option<Document>)
    requires !s.dirty
    ensures !AddStep(s, q, input).dirty
    ensures !DeleteStep(s, q, index).dirty
    ensures !ImportStep(s, file).dirty
    ensures forall t :: LoadStep(s) == Some(t) ==> !t.dirty
  {
  }

  /** With the flag clear, import replaces the live record by the parsed file
      and leaves storage as it was; a file that does not parse changes
      nothing. */
  lemma ImportKeepsStorage(s: State, file: Option<Document>)
    requires !s.dirty
    ensures ImportStep(s, file).storage == s.storage
    ensures !ImportStep(s, file).dirty
    ensures forall qs :: file == Some(Snapshot(qs)) ==> ImportStep(s, file).quadrants == qs
    ensures file.None? || Decode(file.value).None? ==> ImportStep(s, file) == s
  {
  }

  /** Export emits the stored document exactly when the slot holds a
      non-empty one, under the `tasks_<timestamp>.json` name. */
  lemma ExportEmitsStoredDocument(s: State, now: LocalTime)
    ensures ExportStep(s, now).Some? <==> s.storage.Some? && s.storage.value != Blank
    ensures ExportStep(s, now).Some? ==>
      ExportStep(s, now).value.document == s.storage.value
      && ExportStep(s, now).value.fileName == "tasks_" + FormatTimestamp(now) + ".json"
  {
  }

  /** The live record and the flag never affect what export emits. */
  lemma ExportIgnoresLiveState(s: State, t: State, now: LocalTime)
    requires s.storage == t.storage
    ensures ExportStep(s, now) == ExportStep(t, now)
  {
  }

  /** Import does not persist: an export right after an import emits what it
      would have emitted before the import. */
  lemma ExportAfterImport(s: State, file: Option<Document>, now: LocalTime)
    requires !s.dirty
    ensures ExportStep(ImportStep(s, file), now) == ExportStep(s, now)
  {
    ImportKeepsStorage(s, file);
    ExportIgnoresLiveState(ImportStep(s, file), s, now);
  }

  /** Exporting a state whose slot holds the live record and importing the
      file into any state gives back the record at export time. */
  lemma ExportThenImport(s: State, t: State, now: LocalTime)
    requires InSync(s)
    ensures ExportStep(s, now).Some?
    ensures ImportStep(t, Some(ExportStep(s, now).value.document)).quadrants == s.quadrants
  {
  }

  /** Start-up: no document or an empty one gives the empty record; a
      document that parses gives its record; one that does not parse stops
      the app. The slot is left as found, and the flag is clear. */
  lemma StartupOutcomes(stored: Option<Document>)
    ensures stored == None || stored == Some(Blank) ==>
      Startup(stored) == Some(State(Empty(), false, stored))
    ensures forall qs :: stored == Some(Snapshot(qs)) ==>
      Startup(stored) == Some(State(qs, false, stored))
    ensures stored == Some(Unparsable) ==> Startup(stored) == None
  {
  }

  /** A slot written by the app itself is read back by the next start-up. */
  lemma SavedStateReloads(s: State)
    requires InSync(s)
    ensures Startup(s.storage) == Some(State(s.quadrants, false, s.storage))
  {
  }
}
