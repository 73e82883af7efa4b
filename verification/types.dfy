/** Data shapes shared by the whole UI (types.ts). */
module Types {

  /** A value that may be absent; stands for the `T | null` state slots. */
  datatype Option<+T> = None | Some(value: T)

  /** The rewriting style offered in the configuration panel. */
  datatype PromptStyle = Professional | Creative | Academic | Technical | Direct

  /** The requested depth of rewriting. */
  datatype ComplexityLevel = Simple | Moderate | Complex

  /** What one submission hands to the remote model. */
  datatype OptimizationRequest = OptimizationRequest(
    inputPrompt: string,
    style: PromptStyle,
    complexity: ComplexityLevel)

  /** One rewrite of the prompt returned by the remote model. */
  datatype OptimizedVariant = OptimizedVariant(
    title: string,
    content: string,
    reasoning: string,
    tags: seq<string>)

  /** The remote model's verdict on the original prompt. The clarity score is
      a JavaScript number in the source; it is only displayed, so an integer
      stands for it here. */
  datatype Analysis = Analysis(
    grammarIssues: seq<string>,
    clarityScore: int,
    intentDetected: string)

  /** A whole reply of the remote model. The number of variants is not
      checked anywhere in the client, so any length is allowed. */
  datatype OptimizationResult = OptimizationResult(
    originalAnalysis: Analysis,
    variants: seq<OptimizedVariant>)

  /** The displayed progress of a submission. The constructor names are the
      string literals of the source's union type. */
  datatype PipelineStage =
    | IDLE
    | PREPROCESSING
    | OPTIMIZING
    | GENERATING
    | FORMATTING
    | COMPLETE
    | ERROR

  /** How the one remote call settled: the parsed reply, or the `message`
      of the thrown error. A missing message (`undefined`) and an empty one
      are both falsy in JavaScript, so both are the empty string here. */
  datatype Outcome = Success(data: OptimizationResult) | Failure(message: string)
}
