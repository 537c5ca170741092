/**
 The backend's static configuration (backend/config.js) as constants: the
 upload allow-list, the size ceiling and the model registry the loader reads.
 */
module Config {
  import opened Optional
  import Loader

  /** Lower-case extensions a file name may end with. */
  const AllowedExtensions: seq<string> := ["png", "jpg", "jpeg", "webp"]

  /**
   20 MiB. Nothing reads this constant: the router's upload parser sets its
   own 20 MiB limit (backend/routes.js:10), and that parser is not part of
   this model.
   */
  const MaxFileSize: nat := 20 * 1024 * 1024

  /**
   The `PIPELINE_MODELS` registry the loader iterates. The configuration
   object defines no such property, so reading it yields `undefined`.
   */
  const PipelineModels: Option<Loader.Registry> := None

}
