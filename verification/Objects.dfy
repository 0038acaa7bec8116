/** What a store holds besides its metadata (tsync/storage.go Storage, tsync/backup.go uploadPart). */
module Objects {
  import opened Keys
  import opened Metadata

  /** An object of the store. Sealed(rec) is a part whose content, sizes and password are those
      of rec; Other is anything else. */
  datatype Object = Sealed(record: FileRecord) | Other(bytes: string)

  type Objects = map<string, Object>

  /** The part of a record can be found under its key and opened with the record. */
  predicate PartIntact(objects: Objects, k: Key, rec: FileRecord)
  {
    |k| >= 2 && PartKeyFor(k) in objects && objects[PartKeyFor(k)] == Sealed(rec)
  }
}
