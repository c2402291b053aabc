/** Collapsing a deck in the CrowdAnki export format into the program's own
    deck shape: every note is paired with the note model its uuid names, and
    its positional field values are keyed by the model's field names. */
module CrowdAnki {
  import opened Strings
  import opened Records
  import Anki

  datatype DeckConfiguration = DeckConfiguration(name: string)

  datatype NoteField = NoteField(name: string)

  datatype CardTemplate = CardTemplate(qfmt: string, afmt: string, name: string)

  datatype NoteModel = NoteModel(css: string, flds: seq<NoteField>, tmpls: seq<CardTemplate>,
                                 crowdanki_uuid: string, name: string)

  datatype Note = Note(fields: seq<string>, note_model_uuid: string)

  /** The exported deck; `deckType` is the `__type__` tag. */
  datatype Deck = Deck(deckType: string, deck_configurations: seq<DeckConfiguration>, desc: string,
                       media_files: seq<string>, name: string, note_models: seq<NoteModel>, notes: seq<Note>)

  /** The collapse either succeeds or stops at the first note whose model
      uuid names no model, where the program reads a property of
      `undefined` and throws. */
  datatype Result<T> = Ok(value: T) | MissingModel(uuid: string)

  /** `models.find(nm => nm.crowdanki_uuid === uuid)`: the first match. */
  function FindModel(models: seq<NoteModel>, uuid: string): (r: Option<nat>)
    ensures r.Some? ==> r.value < |models| && models[r.value].crowdanki_uuid == uuid
                        && forall j | 0 <= j < r.value :: models[j].crowdanki_uuid != uuid
    ensures r.None? ==> forall j | 0 <= j < |models| :: models[j].crowdanki_uuid != uuid
    decreases |models|
  {
    if |models| == 0 then None
    else if models[0].crowdanki_uuid == uuid then Some(0)
    else
      match FindModel(models[1..], uuid)
      case None => None
      case Some(i) => Some(i + 1)
  }

  /** `flds.map(s => s.name)`. */
  function FieldNames(flds: seq<NoteField>): (names: seq<string>)
    ensures |names| == |flds| && forall i | 0 <= i < |flds| :: names[i] == flds[i].name
  {
    seq(|flds|, i requires 0 <= i < |flds| => flds[i].name)
  }

  /** `tmpls.map(t => [t.name, {front: t.qfmt, back: t.afmt}])`. */
  function TemplatePairs(tmpls: seq<CardTemplate>): (pairs: seq<(string, Anki.Face)>)
    ensures |pairs| == |tmpls|
    ensures forall i | 0 <= i < |tmpls| :: pairs[i] == (tmpls[i].name, Anki.Face(tmpls[i].qfmt, tmpls[i].afmt))
  {
    seq(|tmpls|, i requires 0 <= i < |tmpls| => (tmpls[i].name, Anki.Face(tmpls[i].qfmt, tmpls[i].afmt)))
  }

  /** `flds.map((f, i) => [f.name, values[i]])`: one pair per field name;
      a name past the end of `values` gets `undefined`, and values past the
      last name are dropped. */
  function FieldPairs(flds: seq<NoteField>, values: seq<string>): (pairs: seq<(string, Option<string>)>)
    ensures |pairs| == |flds|
    ensures forall i | 0 <= i < |flds| ::
              pairs[i] == (flds[i].name, if i < |values| then Some(values[i]) else None)
  {
    seq(|flds|, i requires 0 <= i < |flds| => (flds[i].name, if i < |values| then Some(values[i]) else None))
  }

  /** The model as the deck hands it out. */
  function CollapseModel(m: NoteModel): Anki.NoteModel
  {
    Anki.NoteModel(m.css, FieldNames(m.flds), FromPairs(TemplatePairs(m.tmpls)), m.name)
  }

  /** A note collapsed with its model `m`. */
  function CollapseNote(m: NoteModel, n: Note): Anki.Note
  {
    Anki.Note(FromPairs(FieldPairs(m.flds, n.fields)), CollapseModel(m))
  }

  /** `notes.map(...)`, in order, stopping at the first note without a model. */
  function CollapseNotes(models: seq<NoteModel>, notes: seq<Note>): Result<seq<Anki.Note>>
    decreases |notes|
  {
    if |notes| == 0 then Ok([])
    else
      match FindModel(models, notes[0].note_model_uuid)
      case None => MissingModel(notes[0].note_model_uuid)
      case Some(k) =>
        match CollapseNotes(models, notes[1..])
        case MissingModel(u) => MissingModel(u)
        case Ok(rest) => Ok([CollapseNote(models[k], notes[0])] + rest)
  }

  function CollapseCrowdAnkiDeck(raw: Deck): Result<Anki.AnkiDeck>
  {
    match CollapseNotes(raw.note_models, raw.notes)
    case MissingModel(u) => MissingModel(u)
    case Ok(notes) => Ok(Anki.AnkiDeck(notes, raw.media_files, raw.name, raw.desc))
  }

  // ---------------------------------------------------------------------
  // Properties
  // ---------------------------------------------------------------------

  predicate HasModel(models: seq<NoteModel>, uuid: string)
  {
    exists j | 0 <= j < |models| :: models[j].crowdanki_uuid == uuid
  }

  /** The model a note is collapsed with: the first one its uuid names. */
  function ModelOf(models: seq<NoteModel>, n: Note): NoteModel
    requires HasModel(models, n.note_model_uuid)
  {
    match FindModel(models, n.note_model_uuid)
    case Some(k) => models[k]
  }

  /** The notes collapse exactly when every note names a model; then there
      is one collapsed note per note, in order, each with its own model. */
  lemma {:induction false} CollapseNotesOk(models: seq<NoteModel>, notes: seq<Note>)
    ensures CollapseNotes(models, notes).Ok? <==> forall i | 0 <= i < |notes| :: HasModel(models, notes[i].note_model_uuid)
    ensures CollapseNotes(models, notes).Ok? ==>
              var ns := CollapseNotes(models, notes).value;
              |ns| == |notes| && forall i | 0 <= i < |notes| :: ns[i] == CollapseNote(ModelOf(models, notes[i]), notes[i])
    decreases |notes|
  {
    if |notes| > 0 {
      CollapseNotesOk(models, notes[1..]);
      assert forall i | 1 <= i < |notes| :: notes[1..][i - 1] == notes[i];
      var u := notes[0].note_model_uuid;
      if FindModel(models, u).Some? {
        assert HasModel(models, u);
      }
      if CollapseNotes(models, notes).Ok? {
        var ns := CollapseNotes(models, notes).value;
        var rest := CollapseNotes(models, notes[1..]).value;
        assert ns == [CollapseNote(ModelOf(models, notes[0]), notes[0])] + rest;
        forall i | 0 <= i < |notes| ensures ns[i] == CollapseNote(ModelOf(models, notes[i]), notes[i]) {
          if i > 0 {
            assert ns[i] == rest[i - 1];
          }
        }
      }
    }
  }

  /** A failed collapse names the uuid of the first note without a model. */
  lemma {:induction false} CollapseNotesFails(models: seq<NoteModel>, notes: seq<Note>)
    ensures CollapseNotes(models, notes).MissingModel? ==>
              exists i | 0 <= i < |notes| ::
                notes[i].note_model_uuid == CollapseNotes(models, notes).uuid
                && !HasModel(models, notes[i].note_model_uuid)
                && forall j | 0 <= j < i :: HasModel(models, notes[j].note_model_uuid)
    decreases |notes|
  {
    if |notes| > 0 && CollapseNotes(models, notes).MissingModel? {
      var u := notes[0].note_model_uuid;
      if FindModel(models, u).None? {
        assert !HasModel(models, u);
        assert notes[0].note_model_uuid == CollapseNotes(models, notes).uuid;
      } else {
        assert HasModel(models, u);
        CollapseNotesFails(models, notes[1..]);
        var i :| 0 <= i < |notes[1..]| && notes[1..][i].note_model_uuid == CollapseNotes(models, notes[1..]).uuid
                 && !HasModel(models, notes[1..][i].note_model_uuid)
                 && forall j | 0 <= j < i :: HasModel(models, notes[1..][j].note_model_uuid);
        assert notes[i + 1] == notes[1..][i];
        forall j | 0 <= j < i + 1 ensures HasModel(models, notes[j].note_model_uuid) {
          if j > 0 {
            assert notes[j] == notes[1..][j - 1];
          }
        }
      }
    }
  }

  /** The deck's own data is copied: the media list, the name, and the
      description from `desc`. */
  lemma {:induction false} DeckMetadata(raw: Deck)
    ensures CollapseCrowdAnkiDeck(raw).Ok? ==>
              var d := CollapseCrowdAnkiDeck(raw).value;
              d.media_files == raw.media_files && d.name == raw.name && d.description == raw.desc
              && |d.notes| == |raw.notes|
    ensures CollapseCrowdAnkiDeck(raw).Ok? <==>
              forall i | 0 <= i < |raw.notes| :: HasModel(raw.note_models, raw.notes[i].note_model_uuid)
  {
    CollapseNotesOk(raw.note_models, raw.notes);
  }

  /** Field `i` of the model reads as value `i` of the note, or as
      `undefined` when the note has fewer values, unless a later field has
      the same name. */
  lemma {:induction false} NoteFieldValue(m: NoteModel, n: Note, i: nat)
    requires i < |m.flds| && forall j | i < j < |m.flds| :: m.flds[j].name != m.flds[i].name
    ensures Get(CollapseNote(m, n).fields, m.flds[i].name) == Some(if i < |n.fields| then Some(n.fields[i]) else None)
  {
    FromPairsGetAt(FieldPairs(m.flds, n.fields), i);
  }

  /** Only the model's field names are keys, in the order they first appear. */
  lemma {:induction false} NoteFieldKeys(m: NoteModel, n: Note)
    ensures Keys(CollapseNote(m, n).fields) == FirstOccurrences(FieldNames(m.flds))
  {
    var pairs := FieldPairs(m.flds, n.fields);
    FromPairsKeys(pairs);
    assert Keys(pairs) == FieldNames(m.flds);
  }

  /** With distinct field names every name is a key, in the model's order,
      paired with its positional value. */
  lemma {:induction false} NoteFieldsDistinct(m: NoteModel, n: Note)
    requires forall i, j | 0 <= i < j < |m.flds| :: m.flds[i].name != m.flds[j].name
    ensures CollapseNote(m, n).fields == FieldPairs(m.flds, n.fields)
  {
    FromPairsDistinct(FieldPairs(m.flds, n.fields));
  }

  /** A template reads under its name as its front and back, unless a later
      template has the same name. */
  lemma {:induction false} TemplateLookup(m: NoteModel, i: nat)
    requires i < |m.tmpls| && forall j | i < j < |m.tmpls| :: m.tmpls[j].name != m.tmpls[i].name
    ensures Get(CollapseModel(m).noteTemplates, m.tmpls[i].name) == Some(Anki.Face(m.tmpls[i].qfmt, m.tmpls[i].afmt))
  {
    FromPairsGetAt(TemplatePairs(m.tmpls), i);
  }

  /** A name no template has reads as `undefined`. */
  lemma {:induction false} TemplateAbsent(m: NoteModel, name: string)
    requires forall i | 0 <= i < |m.tmpls| :: m.tmpls[i].name != name
    ensures Get(CollapseModel(m).noteTemplates, name) == None
  {
    FromPairsGetAbsent(TemplatePairs(m.tmpls), name);
  }

  /** The collapsed model keeps the css, the name and the field names in order. */
  lemma {:induction false} ModelCopied(m: NoteModel)
    ensures var c := CollapseModel(m);
              c.css == m.css && c.name == m.name && |c.fieldNames| == |m.flds|
              && forall i | 0 <= i < |m.flds| :: c.fieldNames[i] == m.flds[i].name
  {
  }
}
