/** The caption synonym table of the import page. The page spells the same
    table out twice, once for scoring and once for the certainty test; the
    two copies are identical and are modelled once here. */
module Synonyms {
  import opened Common

  /** The registered alternate phrasings of a caption, if it has an entry. */
  function Lookup(caption: string): Option<seq<string>> {
    if caption == "Forename(s)" then Some(["forename", "forenames", "first name", "firstname", "given name", "givenname", "given"])
    else if caption == "First Name" then Some(["first name", "firstname", "forename", "given name", "givenname", "given"])
    else if caption == "Surname" then Some(["surname", "last name", "lastname", "family name", "familyname"])
    else if caption == "Last Name" then Some(["last name", "lastname", "surname", "family name", "familyname"])
    else if caption == "Full Name" then Some(["full name", "fullname", "name", "employee name", "staff name"])
    else if caption == "Email" then Some(["email", "e-mail", "email address", "mail"])
    else if caption == "Job Title" then Some(["job title", "title", "position", "job role"])
    else if caption == "Manager Name" then Some(["manager", "line manager", "supervisor"])
    else if caption == "Phone" then Some(["phone", "telephone", "tel", "mobile", "cell"])
    else if caption == "Department" then Some(["department", "dept"])
    else if caption == "Org Unit" then Some(["org unit", "organisation unit", "organization unit", "business unit", "division", "org", "organization", "organisation"])
    else if caption == "Start Date" then Some(["start date", "hire date", "commencement date", "joining date", "date started"])
    else if caption == "Employee ID" then Some(["employee id", "emp id", "employee number", "staff id", "worker id", "personnel number", "payroll number", "employee code", "emp no", "employee_no", "employeeid"])
    else if caption == "Reference" then Some(["reference", "ref", "external id", "external reference"])
    else if caption == "Username" then Some(["username", "user name", "login", "login name"])
    else if caption == "Role" then Some(["role", "user role", "permission role"])
    else if caption == "Status" then Some(["status", "state", "active", "enabled", "inactive"])
    else if caption == "Location" then Some(["location", "site", "office"])
    else None
  }
}
