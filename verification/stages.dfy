/** The three fixed transformation stages of a run. */
module Stages {

  /** `polish`, `emotion_polish` and `enhance`: the only stage names the orchestrator dispatches on. */
  datatype Stage = Polish | EmotionPolish | Enhance
}
