/**
 * The start-up sequence of src/app.py: make sure the data is cached, stop when the user
 * declined, otherwise load the table the dashboard serves.
 */
module App {
  import opened Wrappers
  import opened Archive
  import opened Loader

  /** How start-up ends: halted after a refusal, aborted by to_datetime, or serving a table. */
  datatype Startup = Halted | LoadFailed(error: LoadError) | Serving(frame: Frame)

  /**
   * Lines 50-65. `files` stands for the rows read_csv returns for each file listdir finds
   * in the data directory; it is read only when the data is available.
   */
  method Start(store: DataStore, response: string, north: seq<string>, south: seq<string>,
               files: seq<seq<RawRow>>) returns (s: Startup)
    modifies store
    ensures store.State() == Check(old(store.State()), response, north, south).0
    ensures s.Halted? <==> !old(store.dirExists) && !Consents(response)
    ensures s.Halted? ==> !store.dirExists && store.downloads == old(store.downloads)
    ensures old(store.dirExists) ==> store.downloads == old(store.downloads) && store.prompts == old(store.prompts)
    ensures s.Serving? ==> fresh(s.frame) && Normalised(files) == Success(s.frame.rows)
    ensures s.LoadFailed? ==> Normalised(files) == Failure(s.error)
  {
    var dataExists := store.CheckIfDataExists(response, north, south);
    if !dataExists {
      return Halted;
    }
    var loaded := Load(files);
    match loaded
    case Failure(e) => return LoadFailed(e);
    case Success(frame) => return Serving(frame);
  }
}
