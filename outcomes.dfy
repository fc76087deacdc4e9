/** Option and Result types shared by the editor model.
    A `Result` carries either the new document root or the kind of failure
    that makes the editor keep its old root. */
module Outcomes {

  datatype Option<+T> = None | Some(value: T)

  /** Why an edit helper does not produce a new root. In
      visual-editor.tsx some of these are exceptions, and others are
      writes that succeed there but that the model refuses (see README):
      - `PathNotFound` is the TypeError of reading or writing through
        `undefined` once a step of the walk has found nothing.
      - `NotAnObject` is the TypeError of `Object.keys(null)` or of a write
        on a primitive. On an array target the component's property set or
        `delete` does not throw: it leaves a stray property or a hole.
      - `NotAnArray` is the TypeError of `push` or `splice` on a non-array.
        On an object target the swap of the move helpers does not throw:
        it exchanges two properties.
      - `KeyExists` is the "Key already exists" notice of the rename helper.
      - `IndexOutOfRange` never throws in the component: it stands for a
        write at an index outside the array, or under a key that is not an
        index, which leaves a hole or a stray property. */
  datatype EditError =
    | PathNotFound      // a step of the path names no own key / element
    | NotAnObject       // the target (or the root whose keys are counted) is not an object
    | NotAnArray        // the target of an array helper is not an array
    | KeyExists         // rename target already answers a property lookup
    | IndexOutOfRange   // an element index outside the array

  datatype Result<+T> = Ok(value: T) | Err(error: EditError) {
    predicate IsFailure() { Err? }

    function PropagateFailure<U>(): Result<U>
      requires Err?
    {
      Err(error)
    }

    function Extract(): T
      requires Ok?
    {
      value
    }
  }
}
