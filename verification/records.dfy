/** The typed rows of the salary survey and the result type shared by the pipeline. */
module SalaryRecords {

  /** One row of the dataset: the eleven columns of the survey, in header order.
      The source's `f32`/`f64` columns are modelled as exact reals. */
  datatype SalaryRecord = SalaryRecord(
    workYear: int,
    experienceLevel: string,
    employmentType: string,
    jobTitle: string,
    salary: real,
    salaryCurrency: string,
    salaryInUsd: real,
    employeeResidence: string,
    remoteRatio: real,
    companyLocation: string,
    companySize: string
  )

  /** The outcome of a step that can fail; a panic of the source becomes `Err`. */
  datatype Result<T, E> = Ok(value: T) | Err(error: E)
}
