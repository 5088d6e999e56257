/**
  The required-field check applied to an employee before it is sent: the
  first empty field, in the order name, email, position, is reported; no
  report means every field is filled.
 */
module Validation {
  import opened Wrappers
  import opened Types

  const NAME_REQUIRED := "Name is required"
  const EMAIL_REQUIRED := "Email is required"
  const POSITION_REQUIRED := "Position is required"

  function ValidateEmployee(employee: Draft): (r: Option<string>)
    ensures employee.name == "" ==> r == Some(NAME_REQUIRED)
    ensures employee.name != "" && employee.email == "" ==> r == Some(EMAIL_REQUIRED)
    ensures employee.name != "" && employee.email != "" && employee.position == "" ==>
              r == Some(POSITION_REQUIRED)
    ensures r.None? <==> employee.name != "" && employee.email != "" && employee.position != ""
  {
    if employee.name == "" then Some(NAME_REQUIRED)
    else if employee.email == "" then Some(EMAIL_REQUIRED)
    else if employee.position == "" then Some(POSITION_REQUIRED)
    else None
  }

  /** A draft with a role name as its position never gets the position report. */
  lemma RolePositionNeverMissing(name: string, email: string, role: Role)
    ensures ValidateEmployee(Draft(name, email, RoleName(role))) != Some(POSITION_REQUIRED)
  {
  }

}
