/**
  The records shared by the frontend: an employee, the five roles it can hold,
  the editable part of an employee (what the form and the validator see) and
  the page metadata derived by the list view; with the validation bounds.
 */
module Types {

  /** The five fixed roles, in the order the form's select lists them. */
  datatype Role = Manager | Developer | Designer | Tester | HR

  /** The display string of a role, which is also what the position filter compares against. */
  function RoleName(r: Role): (s: string)
    ensures s != ""
  {
    match r
    case Manager => "Manager"
    case Developer => "Developer"
    case Designer => "Designer"
    case Tester => "Tester"
    case HR => "HR"
  }

  lemma RoleNameInjective(r1: Role, r2: Role)
    ensures RoleName(r1) == RoleName(r2) <==> r1 == r2
  {
  }

  /** A stored employee; the id is assigned by the server. */
  datatype Employee = Employee(id: int, name: string, email: string, position: Role)

  /**
    An employee without its id, as the form edits it and as it is sent to the
    server. The position is the raw value of the select element, so it is a
    string here: nothing at run time keeps it inside the five roles.
   */
  datatype Draft = Draft(name: string, email: string, position: string)

  /** The page metadata the list view derives from the filtered list. */
  datatype PaginationInfo = PaginationInfo(
    currentPage: int,
    totalPages: int,
    totalEmployees: int,
    hasNext: bool,
    hasPrev: bool,
    limit: int)

  const NAME_MIN: nat := 3
  const NAME_MAX: nat := 50

}
