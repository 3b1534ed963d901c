/** The documents the search ranks, as the ranking code sees them. */
module Entities {

  /** `result.constructor.modelName`: the collection a document came from.
      The names `"Course"` and `"Note"` are always written `Course` and
      `Note`; `OtherModel` carries the name of any other collection, and a
      value `OtherModel("Course")` or `OtherModel("Note")` stands for nothing. */
  datatype ModelName = Course | Note | OtherModel(modelName: string)

  /** The fields of a fetched Course or Note document that the search reads:
      `name`, `searchDesc`, the model and `url`. */
  datatype Candidate = Candidate(name: string, searchDesc: string, model: ModelName, url: string)

}
