/** The job record shared by the job board and the résumé check page. */
module Jobs {

  /** A job listing; `jobType` is the record's `type` field. */
  datatype Job = Job(
    id: string,
    title: string,
    company: string,
    location: string,
    jobType: string,
    salary: string,
    description: string,
    requirements: seq<string>,
    responsibilities: seq<string>,
    skills: seq<string>,
    posted: string)
}
