/** Types shared by every part of the registration model. */
module Common {

  /** The conventional optional value; `None` stands for Python's `None`. */
  datatype Option<+T> = None | Some(value: T)

  /** A course is referred to by its position in the central course table.
      Two references denote the same course object exactly when the ids are equal. */
  type CourseId = nat
}
