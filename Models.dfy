/** The entity of the Employee application and the shape of what a request posts. */
module Models {

  /** A nullable value: `None` plays C#'s `null` (for `int?`, `bool?` and object references). */
  datatype Option<+T> = None | Some(value: T)

  /** One row of the Employee table. `id` is the identity key that the database assigns. */
  datatype Employee = Employee(id: int, lastName: string, firstName: string)

  /** The fields of a posted create form, including an `id` a hostile caller may add. */
  datatype EmployeeForm = EmployeeForm(id: Option<int>, lastName: string, firstName: string)

  /** The value of an `int` property nobody assigned (C#'s `default(int)`). */
  const UnassignedId := 0

  /**
   * Model binding restricted to `[Bind("LastName,FirstName")]`: only the two name
   * fields are copied onto a new Employee; whatever `id` the form carries is ignored.
   */
  function BindCreate(form: EmployeeForm): Employee
  {
    Employee(UnassignedId, form.lastName, form.firstName)
  }
}
