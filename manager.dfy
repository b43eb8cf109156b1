/**
 The employee manager: an in-memory, insertion-ordered directory of employee
 objects that keeps three rules on every successful change: identifiers are
 pairwise distinct, names are pairwise distinct, and every salary is valid for
 its employee's position.

 The first part states the rules and the list operations on sequences of
 employees and proves their properties; the class EmployeeManager at the end
 is the directory itself, whose methods are proved against those definitions.
 */
module Manager {
  import opened Staff

  // ---------------------------------------------------------------------------
  // The salary rule
  // ---------------------------------------------------------------------------

  /** A salary is valid for a position when it lies in the position's inclusive
      range and is strictly positive. */
  predicate IsSalaryValidForPosition(position: Position, salary: real): (valid: bool)
    ensures valid ==> position.minSalary <= position.maxSalary && 0.0 < position.maxSalary
    ensures salary <= 0.0 ==> !valid
  {
    salary >= position.minSalary && salary <= position.maxSalary && salary > 0.0
  }

  /** Some salary is valid for a position exactly when its range is not empty
      and reaches above zero; the valid salaries then include the maximum. */
  lemma PositionAdmitsSomeSalary(position: Position)
    ensures (exists s :: IsSalaryValidForPosition(position, s))
            <==> position.minSalary <= position.maxSalary && 0.0 < position.maxSalary
    ensures position.minSalary <= position.maxSalary && 0.0 < position.maxSalary
            ==> IsSalaryValidForPosition(position, position.maxSalary)
  {
    if position.minSalary <= position.maxSalary && 0.0 < position.maxSalary {
      assert IsSalaryValidForPosition(position, position.maxSalary);
    }
  }

  /** The valid salaries of a position form an interval: a salary between two
      valid ones is valid, and no salary of zero or below ever is. */
  lemma ValidSalariesFormInterval(position: Position, low: real, mid: real, high: real)
    requires IsSalaryValidForPosition(position, low) && IsSalaryValidForPosition(position, high)
    requires low <= mid <= high
    ensures IsSalaryValidForPosition(position, mid)
    ensures position.minSalary <= low && high <= position.maxSalary && 0.0 < low
  {
  }

  /** The two positions the manager's tests use. */
  const JuniorDeveloper := Position("1", "Junior Developer", 30000.0, 50000.0)
  const SeniorDeveloper := Position("2", "Senior Developer", 60000.0, 90000.0)

  /** The salary checks the tests make, both ends of each range, the values
      just outside the junior range, and a zero and a negative salary under a
      range whose bounds admit them (that no salary of zero or below is ever
      valid is the predicate's own contract). */
  lemma SalaryChecksOfTheTests()
    ensures IsSalaryValidForPosition(JuniorDeveloper, 40000.0)
    ensures !IsSalaryValidForPosition(JuniorDeveloper, 60000.0)
    ensures IsSalaryValidForPosition(SeniorDeveloper, 70000.0)
    ensures !IsSalaryValidForPosition(SeniorDeveloper, 50000.0)
    ensures IsSalaryValidForPosition(JuniorDeveloper, 30000.0) && IsSalaryValidForPosition(JuniorDeveloper, 45000.0)
    ensures IsSalaryValidForPosition(JuniorDeveloper, 50000.0) && !IsSalaryValidForPosition(SeniorDeveloper, 40000.0)
    ensures IsSalaryValidForPosition(SeniorDeveloper, 60000.0) && IsSalaryValidForPosition(SeniorDeveloper, 65000.0)
    ensures IsSalaryValidForPosition(SeniorDeveloper, 90000.0)
    ensures !IsSalaryValidForPosition(JuniorDeveloper, 29999.0) && !IsSalaryValidForPosition(JuniorDeveloper, 50001.0)
    ensures !IsSalaryValidForPosition(Position("0", "Intern", -100.0, 100.0), 0.0)
    ensures !IsSalaryValidForPosition(Position("0", "Intern", -100.0, 100.0), -1.0)
  {
  }

  // ---------------------------------------------------------------------------
  // The directory rules, on a sequence of employees
  // ---------------------------------------------------------------------------

  /** Some employee of the list has identifier id. */
  ghost predicate HasId(list: seq<Employee>, id: string) {
    exists k | 0 <= k < |list| :: list[k].id == id
  }

  /** Some employee of the list has name "name". */
  ghost predicate HasName(list: seq<Employee>, name: string) {
    exists k | 0 <= k < |list| :: list[k].name == name
  }

  ghost predicate UniqueIds(list: seq<Employee>) {
    forall i, j | 0 <= i < j < |list| :: list[i].id != list[j].id
  }

  ghost predicate UniqueNames(list: seq<Employee>) {
    forall i, j | 0 <= i < j < |list| :: list[i].name != list[j].name
  }

  ghost predicate SalariesValid(list: seq<Employee>)
    reads list
  {
    forall k | 0 <= k < |list| :: IsSalaryValidForPosition(list[k].position, list[k].salary)
  }

  /** The directory invariant: unique identifiers, unique names, valid salaries. */
  ghost predicate DirectoryInvariant(list: seq<Employee>)
    reads list
  {
    UniqueIds(list) && UniqueNames(list) && SalariesValid(list)
  }

  /** Appending an employee keeps the invariant exactly when the employee's
      identifier and name are new and its salary is valid for its position:
      these are the checks the manager makes before it adds. */
  lemma AppendKeepsInvariant(list: seq<Employee>, e: Employee)
    requires DirectoryInvariant(list)
    ensures DirectoryInvariant(list + [e])
            <==> !HasId(list, e.id) && !HasName(list, e.name) && IsSalaryValidForPosition(e.position, e.salary)
  {
    var grown := list + [e];
    assert grown[|list|] == e;
    if !HasId(list, e.id) && !HasName(list, e.name) && IsSalaryValidForPosition(e.position, e.salary) {
      forall i, j | 0 <= i < j < |grown|
        ensures grown[i].id != grown[j].id && grown[i].name != grown[j].name
      {
        if j == |list| {
          assert grown[i] == list[i];
        } else {
          assert grown[i] == list[i] && grown[j] == list[j];
        }
      }
    } else if HasId(list, e.id) {
      var k :| 0 <= k < |list| && list[k].id == e.id;
      assert grown[k] == list[k];
    } else if HasName(list, e.name) {
      var k :| 0 <= k < |list| && list[k].name == e.name;
      assert grown[k] == list[k];
    }
  }

  /** Appending an employee whose identifier is new, as every successful add
      does, makes it the one and only stored employee with that identifier. */
  lemma AppendedIdOccursOnce(list: seq<Employee>, e: Employee)
    requires !HasId(list, e.id)
    ensures forall k | 0 <= k < |list + [e]| :: (list + [e])[k].id == e.id <==> k == |list|
  {
    var grown := list + [e];
    forall k | 0 <= k < |grown| ensures grown[k].id == e.id <==> k == |list| {
      if k < |list| {
        assert grown[k] == list[k];
      }
    }
  }

  // ---------------------------------------------------------------------------
  // Removal by identifier, as List.remove(Object) does with id-based equality
  // ---------------------------------------------------------------------------

  /** The index of the first employee of the list with identifier id. */
  ghost function FirstIndexOfId(list: seq<Employee>, id: string): (k: nat)
    requires HasId(list, id)
    ensures k < |list| && list[k].id == id
    ensures forall j | 0 <= j < k :: list[j].id != id
  {
    if list[0].id == id then 0
    else
      assert HasId(list[1..], id) by {
        var m :| 0 <= m < |list| && list[m].id == id;
        assert list[1..][m - 1] == list[m];
      }
      FirstIndexOfId(list[1..], id) + 1
  }

  /** The list without its first employee whose identifier is id; the list
      itself when there is none. */
  function RemoveFirstWithId(list: seq<Employee>, id: string): (r: seq<Employee>)
    ensures |r| == if HasId(list, id) then |list| - 1 else |list|
    ensures forall x | x in r :: x in list
  {
    if list == [] then []
    else if list[0].id == id then list[1..]
    else [list[0]] + RemoveFirstWithId(list[1..], id)
  }

  /** Removing an identifier nobody has changes nothing. */
  lemma {:induction false} RemoveAbsentIdIsIdentity(list: seq<Employee>, id: string)
    requires !HasId(list, id)
    ensures RemoveFirstWithId(list, id) == list
  {
    if list != [] {
      assert list[0].id != id;
      forall k | 0 <= k < |list| - 1 ensures list[1..][k].id != id {
        assert list[1..][k] == list[k + 1];
      }
      RemoveAbsentIdIsIdentity(list[1..], id);
    }
  }

  /** Removing an identifier that is present deletes exactly the first element
      with that identifier and keeps the others in their order. */
  lemma {:induction false} RemoveDeletesFirstMatch(list: seq<Employee>, id: string)
    requires HasId(list, id)
    ensures RemoveFirstWithId(list, id)
            == list[..FirstIndexOfId(list, id)] + list[FirstIndexOfId(list, id) + 1..]
  {
    if list[0].id != id {
      var tail := list[1..];
      assert HasId(tail, id) by {
        var m :| 0 <= m < |list| && list[m].id == id;
        assert tail[m - 1] == list[m];
      }
      RemoveDeletesFirstMatch(tail, id);
      var k := FirstIndexOfId(tail, id);
      assert FirstIndexOfId(list, id) == k + 1;
      assert list[..k + 1] == [list[0]] + tail[..k];
      assert list[k + 2..] == tail[k + 1..];
    }
  }

  /** Cutting out the element at index k takes away exactly that element. */
  lemma CutAtIndex(list: seq<Employee>, k: nat)
    requires k < |list|
    ensures |list[..k] + list[k + 1..]| == |list| - 1
    ensures multiset(list[..k] + list[k + 1..]) + multiset{list[k]} == multiset(list)
  {
    var before, after := list[..k], list[k + 1..];
    assert list == before + [list[k]] + after;
  }

  /** A successful removal shortens the list by one and takes away exactly one
      occurrence of the removed employee. */
  lemma RemoveShrinksByOne(list: seq<Employee>, id: string)
    requires HasId(list, id)
    ensures |RemoveFirstWithId(list, id)| == |list| - 1
    ensures multiset(RemoveFirstWithId(list, id)) + multiset{list[FirstIndexOfId(list, id)]} == multiset(list)
  {
    RemoveDeletesFirstMatch(list, id);
    CutAtIndex(list, FirstIndexOfId(list, id));
  }

  /** Removal keeps the directory invariant, and in a directory whose
      identifiers are unique no employee with the removed identifier remains. */
  lemma RemoveKeepsInvariant(list: seq<Employee>, id: string)
    requires DirectoryInvariant(list)
    ensures DirectoryInvariant(RemoveFirstWithId(list, id))
    ensures !HasId(RemoveFirstWithId(list, id), id)
  {
    if !HasId(list, id) {
      RemoveAbsentIdIsIdentity(list, id);
    } else {
      RemoveDeletesFirstMatch(list, id);
      var k := FirstIndexOfId(list, id);
      var r := RemoveFirstWithId(list, id);
      assert |r| == |list| - 1;
      forall i | 0 <= i < |r| ensures r[i] == list[if i < k then i else i + 1] {
      }
      forall i, j | 0 <= i < j < |r|
        ensures r[i].id != r[j].id && r[i].name != r[j].name
      {
        assert r[i] == list[if i < k then i else i + 1];
        assert r[j] == list[if j < k then j else j + 1];
      }
      forall i | 0 <= i < |r|
        ensures r[i].id != id && IsSalaryValidForPosition(r[i].position, r[i].salary)
      {
        assert r[i] == list[if i < k then i else i + 1];
      }
    }
  }

  /** Adding an employee with a new identifier and removing it again gives back
      the original list. */
  lemma {:induction false} RemoveUndoesAppend(list: seq<Employee>, e: Employee)
    requires !HasId(list, e.id)
    ensures RemoveFirstWithId(list + [e], e.id) == list
  {
    if list == [] {
      assert list + [e] == [e];
    } else {
      assert list[0].id != e.id;
      assert (list + [e])[1..] == list[1..] + [e];
      forall k | 0 <= k < |list| - 1 ensures list[1..][k].id != e.id {
        assert list[1..][k] == list[k + 1];
      }
      RemoveUndoesAppend(list[1..], e);
    }
  }

  // ---------------------------------------------------------------------------
  // Total salary
  // ---------------------------------------------------------------------------

  /** The sum of the salaries of the list, added up from the front as the
      manager's loop does. */
  ghost function TotalSalary(list: seq<Employee>): (total: real)
    reads list
  {
    if list == [] then 0.0 else TotalSalary(list[..|list| - 1]) + list[|list| - 1].salary
  }

  /** The total of a concatenation is the sum of the totals. */
  lemma {:induction false} TotalSalaryOfConcat(a: seq<Employee>, b: seq<Employee>)
    ensures TotalSalary(a + b) == TotalSalary(a) + TotalSalary(b)
  {
    if b == [] {
      assert a + b == a;
    } else {
      TotalSalaryOfConcat(a, b[..|b| - 1]);
      assert (a + b)[..|a + b| - 1] == a + b[..|b| - 1];
    }
  }

  /** In a list whose salaries are all valid the total is never negative, and
      it is zero exactly when the list is empty. */
  lemma {:induction false} TotalSalaryPositive(list: seq<Employee>)
    requires SalariesValid(list)
    ensures TotalSalary(list) >= 0.0
    ensures TotalSalary(list) == 0.0 <==> list == []
  {
    if list != [] {
      var front := list[..|list| - 1];
      assert SalariesValid(front) by {
        forall k | 0 <= k < |front| ensures IsSalaryValidForPosition(front[k].position, front[k].salary) {
          assert front[k] == list[k];
        }
      }
      TotalSalaryPositive(front);
      assert IsSalaryValidForPosition(list[|list| - 1].position, list[|list| - 1].salary);
    }
  }

  /** Appending an employee adds its salary to the total. */
  lemma TotalSalaryAfterAppend(list: seq<Employee>, e: Employee)
    ensures TotalSalary(list + [e]) == TotalSalary(list) + e.salary
  {
    TotalSalaryOfConcat(list, [e]);
    assert [e][..0] == [];
  }

  /** Cutting out the element at index k subtracts its salary from the total. */
  lemma TotalSalaryAfterCut(list: seq<Employee>, k: nat)
    requires k < |list|
    ensures TotalSalary(list[..k] + list[k + 1..]) == TotalSalary(list) - list[k].salary
  {
    var front, after := list[..k + 1], list[k + 1..];
    assert front[..k] == list[..k];
    assert front + after == list;
    TotalSalaryOfConcat(front, after);
    TotalSalaryOfConcat(list[..k], after);
  }

  /** Removing an identifier that is present subtracts the salary of the
      employee removed. */
  lemma TotalSalaryAfterRemove(list: seq<Employee>, id: string)
    requires HasId(list, id)
    ensures TotalSalary(RemoveFirstWithId(list, id))
            == TotalSalary(list) - list[FirstIndexOfId(list, id)].salary
  {
    RemoveDeletesFirstMatch(list, id);
    TotalSalaryAfterCut(list, FirstIndexOfId(list, id));
  }

  // ---------------------------------------------------------------------------
  // The directory
  // ---------------------------------------------------------------------------

  /** An in-memory directory of employees, kept in insertion order. */
  class EmployeeManager {
    var employees: seq<Employee>

    /** The directory invariant holds of the stored employees. It reads the
        stored employees' positions and salaries, so code outside the manager
        that assigns those fields can break it. */
    ghost predicate Valid()
      reads this, employees
    {
      DirectoryInvariant(employees)
    }

    constructor ()
      ensures employees == [] && Valid()
    {
      employees := [];
    }

    /** Adds employee at the end. A repeated identifier or name is reported
        before an invalid salary; a failed add changes nothing. */
    method AddEmployee(employee: Employee) returns (r: Outcome)
      modifies this
      ensures r == if old(HasId(employees, employee.id) || HasName(employees, employee.name)) then Fail(Duplicate)
                   else if !IsSalaryValidForPosition(employee.position, employee.salary) then Fail(InvalidSalary)
                   else Ok
      ensures employees == if r == Ok then old(employees) + [employee] else old(employees)
      ensures r == Ok ==> TotalSalary(employees) == old(TotalSalary(employees)) + employee.salary
      ensures old(Valid()) ==> Valid()
    {
      var duplicate := EmployeeExists(employee.id);
      if !duplicate {
        duplicate := EmployeeInListHasId(employees, employee.id);
      }
      if !duplicate {
        duplicate := EmployeeInListHasName(employees, employee.name);
      }
      if duplicate {
        return Fail(Duplicate);
      }
      if !IsSalaryValidForPosition(employee.position, employee.salary) {
        return Fail(InvalidSalary);
      }
      if DirectoryInvariant(employees) {
        AppendKeepsInvariant(employees, employee);
      }
      TotalSalaryAfterAppend(employees, employee);
      employees := employees + [employee];
      r := Ok;
    }

    /** Removes the first stored employee whose identifier is employee's; no
        stored employee with that identifier is reported and changes nothing. */
    method RemoveEmployee(employee: Employee) returns (r: Outcome)
      modifies this
      ensures r == if old(HasId(employees, employee.id)) then Ok else Fail(NotFound)
      ensures employees == if r == Ok then RemoveFirstWithId(old(employees), employee.id) else old(employees)
      ensures r == Ok ==> |employees| == |old(employees)| - 1
      ensures r == Ok ==> TotalSalary(employees)
                          == old(TotalSalary(employees) - employees[FirstIndexOfId(employees, employee.id)].salary)
      ensures old(Valid()) ==> Valid() && !HasId(employees, employee.id)
    {
      var found := EmployeeExists(employee.id);
      if !found {
        if DirectoryInvariant(employees) {
          RemoveAbsentIdIsIdentity(employees, employee.id);
        }
        return Fail(NotFound);
      }
      RemoveShrinksByOne(employees, employee.id);
      TotalSalaryAfterRemove(employees, employee.id);
      if DirectoryInvariant(employees) {
        RemoveKeepsInvariant(employees, employee.id);
      }
      employees := RemoveFirstWithId(employees, employee.id);
      r := Ok;
    }

    /** The stored employees, in insertion order. */
    method GetEmployees() returns (list: seq<Employee>)
      ensures list == employees
    {
      list := employees;
    }

    /** The sum of the stored salaries. */
    method CalculateTotalSalary() returns (total: real)
      ensures total == TotalSalary(employees)
    {
      total := 0.0;
      for k := 0 to |employees|
        invariant total == TotalSalary(employees[..k])
      {
        assert employees[..k + 1][..k] == employees[..k];
        total := total + employees[k].salary;
      }
      assert employees[..|employees|] == employees;
    }

    /** Sets the salary of the employee PASSED IN once some stored employee has
        its identifier and the new salary is valid for its position. Only that
        object changes: the stored directory changes only when the argument is
        itself one of the stored employees. */
    method UpdateEmployeeSalary(employee: Employee, newSalary: real) returns (r: Outcome)
      modifies employee
      ensures r == if !HasId(employees, employee.id) then Fail(NotFound)
                   else if !IsSalaryValidForPosition(employee.position, newSalary) then Fail(InvalidSalary)
                   else Ok
      ensures employee.salary == if r == Ok then newSalary else old(employee.salary)
      ensures employee.position == old(employee.position)
      ensures employees == old(employees)
      ensures forall x | x in employees && x != employee :: x.salary == old(x.salary) && x.position == old(x.position)
      ensures old(Valid()) ==> Valid()
    {
      var found := EmployeeExists(employee.id);
      if !found {
        return Fail(NotFound);
      }
      if !IsSalaryValidForPosition(employee.position, newSalary) {
        return Fail(InvalidSalary);
      }
      employee.salary := newSalary;
      r := Ok;
    }

    /** Sets the position of the employee passed in once some stored employee
        has its identifier and the employee's current salary is valid for the
        new position; the salary is left as it is. */
    method UpdateEmployeePosition(employee: Employee, newPosition: Position) returns (r: Outcome)
      modifies employee
      ensures r == if !HasId(employees, employee.id) then Fail(NotFound)
                   else if !IsSalaryValidForPosition(newPosition, employee.salary) then Fail(InvalidSalary)
                   else Ok
      ensures employee.position == if r == Ok then newPosition else old(employee.position)
      ensures employee.salary == old(employee.salary)
      ensures employees == old(employees)
      ensures forall x | x in employees && x != employee :: x.salary == old(x.salary) && x.position == old(x.position)
      ensures old(Valid()) ==> Valid()
    {
      var found := EmployeeExists(employee.id);
      if !found {
        return Fail(NotFound);
      }
      if !IsSalaryValidForPosition(newPosition, employee.salary) {
        return Fail(InvalidSalary);
      }
      employee.position := newPosition;
      r := Ok;
    }

    /** Whether some employee of the given list has identifier id. */
    method EmployeeInListHasId(list: seq<Employee>, id: string) returns (found: bool)
      ensures found <==> HasId(list, id)
    {
      for k := 0 to |list|
        invariant forall j | 0 <= j < k :: list[j].id != id
      {
        if list[k].id == id {
          return true;
        }
      }
      return false;
    }

    /** Whether some employee of the given list has name "name". */
    method EmployeeInListHasName(list: seq<Employee>, name: string) returns (found: bool)
      ensures found <==> HasName(list, name)
    {
      for k := 0 to |list|
        invariant forall j | 0 <= j < k :: list[j].name != name
      {
        if list[k].name == name {
          return true;
        }
      }
      return false;
    }

    /** Whether some stored employee has identifier id. */
    method EmployeeExists(id: string) returns (found: bool)
      ensures found <==> HasId(employees, id)
    {
      for k := 0 to |employees|
        invariant forall j | 0 <= j < k :: employees[j].id != id
      {
        if employees[k].id == id {
          return true;
        }
      }
      return false;
    }
  }

  /** Scenario: John Doe is added to an empty manager, and adding him a
      second time is reported as a duplicate. */
  method AddScenario() returns (manager: EmployeeManager, john: Employee, again: Outcome)
    ensures manager.employees == [john]
    ensures john.id == "1" && john.name == "John Doe"
    ensures john.position == JuniorDeveloper && john.salary == 40000.0
    ensures again == Fail(Duplicate)
  {
    manager := new EmployeeManager();
    john := new Employee("1", "John Doe", JuniorDeveloper, 40000.0);
    var r := manager.AddEmployee(john);
    assert r == Ok;
    assert manager.employees[0] == john;
    again := manager.AddEmployee(john);
  }

  /** Scenario: with only John Doe stored, a junior with a senior salary and a
      senior with a junior salary are refused, and Jane Smith, never added,
      can be neither updated nor removed. */
  method RefusalScenario(manager: EmployeeManager, john: Employee)
    requires manager.employees == [john]
    requires john.id == "1" && john.name == "John Doe"
    modifies manager
  {
    var invalidJunior := new Employee("3", "Invalid Junior", JuniorDeveloper, 60000.0);
    assert !HasId([john], "3") && !HasName([john], "Invalid Junior");
    var r := manager.AddEmployee(invalidJunior);
    assert r == Fail(InvalidSalary);
    var invalidSenior := new Employee("4", "Invalid Senior", SeniorDeveloper, 40000.0);
    assert !HasId([john], "4") && !HasName([john], "Invalid Senior");
    r := manager.AddEmployee(invalidSenior);
    assert r == Fail(InvalidSalary);
    var jane := new Employee("2", "Jane Smith", SeniorDeveloper, 70000.0);
    assert !HasId([john], "2");
    r := manager.UpdateEmployeeSalary(jane, 70000.0);
    assert r == Fail(NotFound);
    r := manager.UpdateEmployeePosition(jane, JuniorDeveloper);
    assert r == Fail(NotFound);
    r := manager.RemoveEmployee(jane);
    assert r == Fail(NotFound);
  }

  /** Scenario: with John Doe and Jane Smith stored the total is 110000. */
  method TotalScenario(manager: EmployeeManager, john: Employee, jane: Employee)
    requires manager.employees == [john, jane]
    requires john.salary == 40000.0 && jane.salary == 70000.0
  {
    var total := manager.CalculateTotalSalary();
    TotalSalaryAfterAppend([], john);
    TotalSalaryAfterAppend([john], jane);
    assert [] + [john] == [john] && [john] + [jane] == [john, jane];
    assert total == 110000.0;
  }

  /** Scenario: with John Doe and Jane Smith stored, removing John leaves only
      Jane. */
  method RemoveScenario(manager: EmployeeManager, john: Employee, jane: Employee)
    requires manager.employees == [john, jane]
    requires john.id == "1"
    modifies manager
  {
    assert HasId(manager.employees, john.id) by {
      assert manager.employees[0] == john;
    }
    assert RemoveFirstWithId([john, jane], john.id) == [jane] by {
      assert [john, jane][0] == john && [john, jane][1..] == [jane];
    }
    var r := manager.RemoveEmployee(john);
    assert r == Ok && manager.employees == [jane];
  }

  /** Scenario: John Doe's salary may move within the junior range but not
      beyond it, and with a junior salary he cannot become a senior. */
  method UpdateScenario(manager: EmployeeManager, john: Employee)
    requires manager.employees == [john]
    requires john.id == "1" && john.position == JuniorDeveloper && john.salary == 40000.0
    modifies john
  {
    assert manager.employees[0].id == "1";
    var r := manager.UpdateEmployeeSalary(john, 45000.0);
    assert r == Ok && john.salary == 45000.0;
    r := manager.UpdateEmployeeSalary(john, 60000.0);
    assert r == Fail(InvalidSalary) && john.salary == 45000.0;
    r := manager.UpdateEmployeePosition(john, SeniorDeveloper);
    assert r == Fail(InvalidSalary) && john.position == JuniorDeveloper;
  }

  /** Scenario: once Jane Smith is stored after John Doe, her position can be
      set to the senior one her salary fits, and the last stored employee then
      holds it. */
  method PositionScenario(manager: EmployeeManager, john: Employee, jane: Employee)
    requires manager.employees == [john]
    requires john.id == "1" && john.name == "John Doe"
    requires jane.id == "2" && jane.name == "Jane Smith" && jane.salary == 70000.0
    requires IsSalaryValidForPosition(jane.position, jane.salary)
    modifies manager, jane
  {
    assert !HasId([john], "2") && !HasName([john], "Jane Smith");
    var r := manager.AddEmployee(jane);
    assert r == Ok && manager.employees == [john, jane];
    assert manager.employees[1].id == "2";
    r := manager.UpdateEmployeePosition(jane, SeniorDeveloper);
    assert r == Ok;
    assert manager.employees[|manager.employees| - 1].position == SeniorDeveloper;
  }
}
