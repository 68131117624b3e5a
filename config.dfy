/** The process-wide settings the modelled code reads (`settings` in app/config.py). */
module Config {

  /** The settings fields the modelled code consults; each can be overridden from the environment. */
  datatype Settings = Settings(maxFileSize: int, maxExtractedSize: int)

  /** One mebibyte, the unit the size settings are written in. */
  const MiB: int := 1024 * 1024

  /** The defaults: 50 MiB per upload, 200 MiB for an archive's extracted contents. */
  const Defaults: Settings := Settings(50 * MiB, 200 * MiB)
}
