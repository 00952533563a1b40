/** Where memtables meet files: the skip list is walked along level 0 and its
    entries become an SST. */
module TableFlush {
  import opened ByteOrder
  import opened Runs
  import opened Words
  import opened SkipList
  import opened SstFormat
  import opened SstFile

  /** The SST that ToSST builds from a memtable, with or without compression:
      reading it is reading the memtable. */
  method FromMemtable(table: ConcurrentSkipList, config: Config, c: real, random: nat -> nat,
                      create: nat -> Option<Compressor>) returns (sst: SST)
    requires table.Valid() && Buildable(table.entries, c) && IndexSize(table.entries) < 0x8000_0000
    requires LosslessAll(create) && (forall i :: random(i) < U64_LIMIT) && config.kind < 256
    ensures fresh(sst) && sst.Holding(table.entries)
  {
    hide Buildable, LosslessAll, IndexSize;
    var entries := table.Entries();
    if config.enable {
      var encoded, file, f, layout := CreateEncoded(entries, config, c, random, create);
      sst := encoded;
    } else {
      var raw, file, f := CreateRaw(entries, c, random, create);
      sst := raw;
    }
  }

  /** A key has the same answer in the memtable and in its file. */
  method SameAnswer(table: ConcurrentSkipList, sst: SST, key: Bytes)
    returns (inTable: Option<Bytes>, inFile: Option<Bytes>)
    requires table.Valid() && sst.Holding(table.entries)
    ensures inTable == inFile == Lookup(table.entries, key)
  {
    inTable := table.Get(key);
    inFile := sst.Get(key, table.entries);
  }
}
