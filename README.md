# Employee manager, modelled in Dafny

This project models `EmployeeManager` of the employee-management repository. The
manager is an in-memory, insertion-ordered directory of employee objects. It
enforces three rules when employees are added and when their salary or position
changes:

- no two stored employees share an identifier;
- no two stored employees share a name;
- every stored salary is strictly positive and lies in the inclusive range of
  the employee's position.

Files:

- `staff.dfy`, module `Staff`: the `Position` record, the `Employee` class
  (constant identifier and name, mutable position and salary), and the
  `Outcome`/`Error` datatypes. `Outcome` stands for the three exceptions
  (duplicate, not found, invalid salary).
- `manager.dfy`, module `Manager`: the salary predicate and the directory rules
  stated on sequences of employees, with lemmas about them. It also holds the
  class `EmployeeManager`, whose methods are proved against those definitions,
  and scenario methods that replay the repository's unit tests from the
  contracts alone.

The methods do not assume the invariant holds. Each one states its result and
its new state for any starting state. Each mutating method also promises that
the invariant holds afterwards whenever it held before (`old(Valid()) ==> Valid()`).

Things the model keeps from the code:

- `addEmployee` checks duplicates with three scans, in the code's order:
  `employeeExists(id)`, then `employeeInEmployeeListHasId(employees, id)`, then
  `employeInEmployeeListHasName(employees, name)`. The first two scans ask the
  same question. Only after these does it check the salary, so a duplicate with
  an invalid salary reports `Duplicate`.
- `removeEmployee` deletes through `List.remove(Object)`, which drops the first
  element equal to the argument. Equality is by identifier, so this is modelled
  as the function `RemoveFirstWithId`.
- The two update methods check only that SOME stored employee has the
  argument's identifier. They then assign the field of the ARGUMENT object,
  after checking against the argument's own position or salary. The update
  methods therefore declare `modifies employee`. The stored directory changes
  only when the argument is itself a stored object. If the argument is a
  different object with the same identifier, the call succeeds and the stored
  employee is left as it was; the contracts say exactly this.
- The manager does not check that a position's minimum is at most its maximum,
  or that either bound is non-negative, so the model does not require it either.
  `PositionAdmitsSomeSalary` shows what an inconsistent range means: no
  employee with that position can ever be added.

## Model

| member | source | states |
|---|---|---|
| `Manager.IsSalaryValidForPosition` | src/main/java/edu/pucmm/EmployeeManager.java:71-73 | a salary is valid only for a position whose minimum is at most its maximum and whose maximum is positive, and a salary of zero or below is never valid, whatever the range |
| `Manager.PositionAdmitsSomeSalary` | src/main/java/edu/pucmm/EmployeeManager.java:71-73 | some salary is valid for a position if and only if its minimum is at most its maximum and its maximum is positive; the maximum is then a valid salary |
| `Manager.ValidSalariesFormInterval` | src/main/java/edu/pucmm/EmployeeManager.java:71-73 | a salary between two valid salaries is valid, and any valid salary is positive and lies within the position's bounds |
| `Manager.SalaryChecksOfTheTests` | src/test/java/edu/pucmm/EmployeeManagerTest.java:151-154 | the tests' checks: 40000 is valid for the junior range and 60000 is not; 70000 is valid for the senior range and 50000 is not; the parameterised junior (30000, 40000, 45000) and senior (60000, 65000, 70000, 90000) values are valid; both ends of each range are valid, the values just outside the junior range are not, and 40000 is not valid for the senior range; zero and -1 are not valid for a range from -100 to 100 (that no salary of zero or below is ever valid is `Manager.IsSalaryValidForPosition`'s contract) |
| `Manager.AppendKeepsInvariant` | src/main/java/edu/pucmm/EmployeeManager.java:22-30 | in a directory that satisfies the invariant, appending an employee keeps the invariant if and only if its identifier and name are new and its salary is valid: the add checks are neither too weak nor too strong |
| `Manager.AppendedIdOccursOnce` | src/main/java/edu/pucmm/EmployeeManager.java:22-30 | appending an employee whose identifier no stored employee has, which a successful add guarantees, makes it the only entry carrying that identifier, whatever the state of the other stored employees |
| `Manager.RemoveFirstWithId` | src/main/java/edu/pucmm/EmployeeManager.java:36 | removal shortens the list by exactly one when some employee has the identifier and not at all otherwise, and never introduces an employee that was not in the list |
| `Manager.FirstIndexOfId` | src/main/java/edu/pucmm/EmployeeManager.java:36 | when some employee has the identifier, the index returned holds that identifier and no earlier index does |
| `Manager.RemoveAbsentIdIsIdentity` | src/main/java/edu/pucmm/EmployeeManager.java:36 | removing an identifier that no employee has leaves the list as it was |
| `Manager.RemoveDeletesFirstMatch` | src/main/java/edu/pucmm/EmployeeManager.java:36 | removing a present identifier gives the list with its first matching element cut out, the others kept in order |
| `Manager.RemoveShrinksByOne` | src/main/java/edu/pucmm/EmployeeManager.java:36 | a successful removal shortens the list by one and drops exactly one occurrence (as multisets) of the first matching employee |
| `Manager.CutAtIndex` | src/main/java/edu/pucmm/EmployeeManager.java:36 | cutting out the element at an index shortens the list by one and takes away exactly that element (as multisets) |
| `Manager.RemoveKeepsInvariant` | src/main/java/edu/pucmm/EmployeeManager.java:32-37 | removal keeps the directory invariant, and afterwards no employee with the removed identifier remains |
| `Manager.RemoveUndoesAppend` | src/main/java/edu/pucmm/EmployeeManager.java:22-37 | appending an employee with a new identifier and then removing that identifier gives back the original list |
| `Manager.TotalSalaryOfConcat` | src/main/java/edu/pucmm/EmployeeManager.java:43-49 | the total salary of a concatenation is the sum of the two totals |
| `Manager.TotalSalaryPositive` | src/main/java/edu/pucmm/EmployeeManager.java:43-49 | when every salary is valid, the total is non-negative and is zero exactly for the empty list |
| `Manager.TotalSalaryAfterAppend` | src/main/java/edu/pucmm/EmployeeManager.java:29 | appending an employee raises the total by that employee's salary |
| `Manager.TotalSalaryAfterCut` | src/main/java/edu/pucmm/EmployeeManager.java:43-49 | cutting out the element at an index lowers the total by that element's salary |
| `Manager.TotalSalaryAfterRemove` | src/main/java/edu/pucmm/EmployeeManager.java:36 | removing a present identifier lowers the total by the salary of the employee removed |
| `Manager.EmployeeManager.constructor` | src/main/java/edu/pucmm/EmployeeManager.java:18-20 | a new manager is empty and satisfies the invariant |
| `Manager.EmployeeManager.AddEmployee` | src/main/java/edu/pucmm/EmployeeManager.java:22-30 | reports Duplicate when the identifier or the name is already stored, else InvalidSalary when the salary is invalid for the employee's position, else Ok; on Ok the list is the old list with the employee appended and the total grows by its salary, otherwise the list is unchanged; the invariant is preserved |
| `Manager.EmployeeManager.RemoveEmployee` | src/main/java/edu/pucmm/EmployeeManager.java:32-37 | reports NotFound, and changes nothing, when no stored employee has the identifier; otherwise deletes the first such employee, the list shrinks by one and the total drops by that employee's salary; the invariant is preserved and no employee with that identifier remains |
| `Manager.EmployeeManager.GetEmployees` | src/main/java/edu/pucmm/EmployeeManager.java:39-41 | returns the stored employees in insertion order |
| `Manager.EmployeeManager.CalculateTotalSalary` | src/main/java/edu/pucmm/EmployeeManager.java:43-49 | returns the sum of the stored salaries and changes nothing |
| `Manager.EmployeeManager.UpdateEmployeeSalary` | src/main/java/edu/pucmm/EmployeeManager.java:51-59 | reports NotFound when no stored employee has the argument's identifier, else InvalidSalary when the new salary is invalid for the argument's position, else Ok; only on Ok does the argument's salary change; its position, the list and every other stored employee stay as they were; the invariant is preserved |
| `Manager.EmployeeManager.UpdateEmployeePosition` | src/main/java/edu/pucmm/EmployeeManager.java:61-69 | reports NotFound when no stored employee has the argument's identifier, else InvalidSalary when the argument's current salary is invalid for the new position, else Ok; only on Ok does the argument's position change; its salary, the list and every other stored employee stay as they were; the invariant is preserved |
| `Manager.EmployeeManager.EmployeeInListHasId` | src/main/java/edu/pucmm/EmployeeManager.java:78-85 | true if and only if some employee of the given list has the identifier |
| `Manager.EmployeeManager.EmployeeInListHasName` | src/main/java/edu/pucmm/EmployeeManager.java:87-94 | true if and only if some employee of the given list has the name |
| `Manager.EmployeeManager.EmployeeExists` | src/main/java/edu/pucmm/EmployeeManager.java:98-105 | true if and only if some stored employee has the identifier |
| `Manager.AddScenario` | src/test/java/edu/pucmm/EmployeeManagerTest.java:28-36 | the tests' setup: adding John Doe to a new manager succeeds and stores exactly him; adding him again returns Duplicate |

## Left out

- Floating point: salaries and range bounds are Dafny `real`s, not IEEE doubles. `CalculateTotalSalary` adds them exactly, with no rounding in the accumulator.
- Exceptions: the three exceptions become the `Fail(Duplicate)`, `Fail(NotFound)` and `Fail(InvalidSalary)` results. Propagation to callers is not modelled.
- Null arguments: `Employee` and `Position` values are never null in the model. The `NullPointerException`s the code would throw are not modelled.
- `Employee`, `Position` and the exception classes are not part of this model. `Employee` is a class with a constant identifier and name (the manager never changes them) and assignable position and salary fields. `Position` is an immutable record.
- `Employee.equals` is taken to compare identifiers, as the comment at EmployeeManager.java:97 says. `removeEmployee` relies on that; the unit tests' `contains` checks pass the very object that was added, so they hold under either equality.
- GetEmployees: returns the current sequence as a value. The Java method returns the live list, so a caller could change the directory through it; that path is not modelled.
- Changes made outside the manager: code that assigns an employee's salary or position directly can break the invariant. The methods therefore promise to preserve the invariant rather than assume it.
- Concurrency: the manager is single-threaded, and so is the model.
