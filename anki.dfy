/** The deck shape the rest of the program consumes: notes whose fields are
    records of named values, each note with the model it was written for. */
module Anki {
  import opened Strings
  import opened Records

  /** One card template: the front and back HTML it is filled into. */
  datatype Face = Face(front: string, back: string)

  datatype NoteModel = NoteModel(css: string, fieldNames: seq<string>, noteTemplates: Record<Face>, name: string)

  /** A note. A field the note has no value for reads as `undefined`,
      written `None` here. The model, handed out by a thunk in the program,
      is a plain value. */
  datatype Note = Note(fields: Record<Option<string>>, model: NoteModel)

  datatype AnkiDeck = AnkiDeck(notes: seq<Note>, media_files: seq<string>, name: string, description: string)
}
