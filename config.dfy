/** The constants of app/config.py that the modelled code reads. */
module Config {

  /** `ALLOWED_EXTENSIONS`. */
  const AllowedExtensions: set<string> := {"jpg", "jpeg", "png"}
}
