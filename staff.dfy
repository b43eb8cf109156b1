/**
 The entities the employee manager works on: positions (immutable salary
 ranges), employees (objects whose position and salary are updated in place)
 and the outcome of a manager operation, which replaces the three exceptions
 the manager throws.
 */
module Staff {

  /** A job position: an identifier, a display name and an inclusive salary range. */
  datatype Position = Position(id: string, name: string, minSalary: real, maxSalary: real)

  /** The three failures a manager operation can report. */
  datatype Error = Duplicate | NotFound | InvalidSalary

  /** The result of an operation that either succeeds or fails with one error. */
  datatype Outcome = Ok | Fail(error: Error)

  /**
   An employee. The manager never changes an employee's identifier or name,
   so they are constants here; the position and the salary are fields that
   the manager's update operations assign in place.
   */
  class Employee {
    const id: string
    const name: string
    var position: Position
    var salary: real

    constructor (id: string, name: string, position: Position, salary: real)
      ensures this.id == id && this.name == name
      ensures this.position == position && this.salary == salary
    {
      this.id := id;
      this.name := name;
      this.position := position;
      this.salary := salary;
    }
  }
}
