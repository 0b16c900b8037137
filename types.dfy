/** The records of the vocabulary widget: catalog entries, the result the remote
    evaluator hands back, and the four-field view state the page renders. */
module Types {

  datatype Option<+T> = None | Some(value: T)

  /** One card of the fixed vocabulary catalog; `etymology` is optional. */
  datatype WordEntry = WordEntry(
    id: string,
    word: string,
    phonetic: string,
    partOfSpeech: string,
    definition: string,
    example: string,
    etymology: Option<string>)

  /** The remote evaluator's judgement. `score` is a JavaScript number: nothing
      bounds it to 0..10 or makes it integral, and nothing ties `isExcellent`
      to it, so both are kept unconstrained here. */
  datatype EvaluationResult = EvaluationResult(
    score: real,
    feedback: string,
    suggestion: Option<string>,
    isExcellent: bool)

  /** The whole state of the page. `evaluation == None` stands for `null`. */
  datatype ViewState = ViewState(
    currentWordIndex: int,
    userSentence: string,
    evaluation: Option<EvaluationResult>,
    isLoading: bool)
}
