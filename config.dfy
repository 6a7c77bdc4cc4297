/** The configuration constants the modelled code reads (config.py). Values
    that come from the environment at run time (the model name, the data
    directory) are parameters of the operations that use them instead. */
module Config {

  /** Display name of the File Search store that holds the original regulations. */
  const PrimaryStoreDisplayName: string := "사내규정-원본"

  /** Display name of the File Search store that holds approved corrections. */
  const CorrectionStoreDisplayName: string := "사내규정-교정"
}
