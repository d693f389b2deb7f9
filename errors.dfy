/** The two exception classes the services throw, each carrying only its message. */
module Errors {
  import Text

  datatype Failure =
    | ResourceNotFound(message: string)   // ResourceNotFoundException
    | DuplicateResource(message: string)  // DuplicateResourceException

  /** The message of the exception getStudentById throws for an absent id. */
  function StudentNotFound(id: int): Failure {
    ResourceNotFound("Student not found with ID: " + Text.IntToString(id))
  }

  /** The message of the exception create and update throw for an email already held. */
  function DuplicateEmail(email: string): Failure {
    DuplicateResource("Student with email " + email + " already exists")
  }
}
