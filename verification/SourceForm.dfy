/** Where the source departs from its evident intent, `Form` selects which of the two a model follows. */
module SourceForm {
  datatype Form = AsWritten | Intended
}
