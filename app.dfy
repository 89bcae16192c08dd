/** The app component's mutable state and its event handlers. Each method
    changes the fields step by step as the component's handlers do; each
    one that replaces the record then runs the save effect. Its contract
    ties the new state to the step function of the protocol, whose
    properties are proved in `Persistence`. */
module AppComponent {

  import opened Wrappers
  import opened Matrix
  import opened Timestamp
  import opened Persistence

  class App {
    /** The `quadrants` state. */
    var quadrants: Quadrants
    /** The `updateLocalStorage` flag. */
    var dirty: bool
    /** The storage slot under the key "quadrants". */
    var storage: Option<Document>

    /** The fields as one protocol state. */
    function Current(): State
      reads this
    {
      State(quadrants, dirty, storage)
    }

    /** Between user events the flag is clear. */
    predicate Valid()
      reads this
    {
      !dirty
    }

    /** The first render: empty quadrants, the flag clear; `stored` is what
        the browser's storage holds under the key. */
    constructor (stored: Option<Document>)
      ensures Valid()
      ensures Current() == Initial(stored)
    {
      quadrants := Empty();
      dirty := false;
      storage := stored;
    }

    /** The save effect. */
    method Save()
      modifies this
      ensures Current() == SaveStep(old(Current()))
    {
      if dirty {
        storage := Some(Encode(quadrants));
        dirty := false;
      }
    }

    /** The load effect; `started` is false when `JSON.parse` throws on the
        stored document, and then nothing changes. */
    method Load() returns (started: bool)
      requires Valid()
      modifies this
      ensures Valid()
      ensures started <==> LoadStep(old(Current())).Some?
      ensures started ==> Current() == LoadStep(old(Current())).value
      ensures !started ==> Current() == old(Current())
    {
      started := true;
      if storage.Some? && !storage.value.Blank? {
        var parsed := Decode(storage.value);
        if parsed.Some? {
          quadrants := parsed.value;
          Save();
        } else {
          started := false;
        }
      }
    }

    /** `handleAddItem`: `input` is the prompt's answer, `None` when the
        prompt was cancelled. */
    method AddItem(q: QuadrantId, input: Option<string>)
      requires Valid()
      modifies this
      ensures Valid()
      ensures Current() == AddStep(old(Current()), q, input)
    {
      if input.Some? && input.value != "" {
        quadrants := Append(quadrants, q, input.value);
        dirty := true;
        Save();
      }
    }

    /** `handleDeleteItem`. */
    method DeleteItem(q: QuadrantId, index: int)
      requires Valid()
      modifies this
      ensures Valid()
      ensures Current() == DeleteStep(old(Current()), q, index)
    {
      quadrants := RemoveAt(quadrants, q, index);
      dirty := true;
      Save();
    }

    /** `handleImportData`: `file` is the chosen file's text, `None` when no
        file was chosen. */
    method ImportData(file: Option<Document>)
      requires Valid()
      modifies this
      ensures Valid()
      ensures Current() == ImportStep(old(Current()), file)
      ensures storage == old(storage)
    {
      if file.Some? {
        var parsed := Decode(file.value);
        if parsed.Some? {
          quadrants := parsed.value;
          Save();
        }
      }
    }

    /** `handleExportData`: the download handed to the browser, if any. */
    method ExportData(now: LocalTime) returns (download: Option<Download>)
      ensures download.Some? <==> storage.Some? && storage.value != Blank
      ensures download.Some? ==>
        download.value.document == storage.value
        && download.value.fileName == ExportFileName(now)
      ensures download == ExportStep(Current(), now)
    {
      download := None;
      if storage.Some? && !storage.value.Blank? {
        download := Some(Download(ExportFileName(now), storage.value));
      }
    }
  }
}
