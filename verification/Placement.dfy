/** What a task asks of the place that runs it, shared by profile lookup and capability
  * matching. */
module Placement {
  datatype Requirements = Requirements(executorProvider: string, executionSecurityTier: string, proofTier: string)
}
