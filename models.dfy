/** Record shapes the matchers read. */
module Models {

  /** A job posting: the fields of the `Job` table that matching uses.
      `skillsRequired` is free text, normally a comma-separated list. */
  datatype Job = Job(id: int, title: string, location: string, skillsRequired: string)
}
