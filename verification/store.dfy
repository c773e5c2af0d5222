/**
 * The record store (`certificates.json`): the whole list of issued
 * certificates, read in full and written back in full on every save.
 */
module Store {
  import opened Results

  /** One issued certificate as stored. */
  datatype Record = Record(
    displayName: string,
    position: nat,
    hash: string,
    timestamp: string,
    generatedAt: string)

  /** The store file: `None` when it does not exist yet. */
  type StoreFile = Option<seq<Record>>

  /** `load_certificates()`: an absent file reads as the empty list. */
  function Load(file: StoreFile): (records: seq<Record>)
    ensures file.None? ==> records == []
    ensures file.Some? ==> records == file.value
  {
    match file
    case None => []
    case Some(records) => records
  }

  /** `save_certificate(cert)`: load, append at the end, write the whole list back. */
  function Save(file: StoreFile, cert: Record): (file': StoreFile)
    ensures file'.Some?
    ensures |Load(file')| == |Load(file)| + 1
    ensures Load(file')[..|Load(file)|] == Load(file)
    ensures Load(file')[|Load(file)|] == cert
  {
    var records := Load(file);
    Some(records + [cert])
  }

  /** Two saves in a row keep both records, in the order they were saved. */
  lemma SaveTwice(file: StoreFile, a: Record, b: Record)
    ensures Load(Save(Save(file, a), b)) == Load(file) + [a, b]
  {
  }
}
