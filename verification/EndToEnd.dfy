/** From bytes on disk to rows: what a restart rebuilds from the file a crash left behind. */
module EndToEnd {
  import opened Values
  import opened Storage
  import opened Records
  import opened Engine
  import opened Isolation
  import opened Durability
  import opened Wal
  import DB = SnapshotDb

  /** After any run, if the file holds the log's frames and then whatever an unfinished write or the
      file system left, decoding it and replaying the records rebuilds each table as the last start
      had it with exactly the landed transactions applied. */
  lemma BytesRebuildLandedWork(crc: Checksum, names: set<Name>, log: seq<seq<Record>>, evs: seq<Event>, n: Name, tail: bytes)
    requires n in names
    requires var e := Run(Recovered(names, log), evs);
             AllFit(e.log) && Stops(crc, tail) && |EncodeLog(crc, e.log) + tail| < TWO_32
    ensures var e, a := Run(Recovered(names, log), evs), DB.DbRun(FreshDb(names, log), evs);
            && n in a.tabs
            && WorkOf(Recover(n, FramesOf(crc, EncodeLog(crc, e.log) + tail)), a.tabs[n], LandedIn(a.txs))
  {
    hide Run, DB.DbRun, Recovered, FreshDb, WorkOf, LandedIn, Recover, FramesOf, EncodeLog, Stops, AllFit;
    var e := Run(Recovered(names, log), evs);
    ReplayWhole(crc, e.log, tail);
    RecoveryIsLandedWork(names, log, evs, n);
  }

  /** In particular a commit caught half written leaves no trace: the file with any strict prefix of
      its frame rebuilds the same rows as the file without it. */
  lemma TornCommitLeavesNoTrace(crc: Checksum, names: set<Name>, log: seq<seq<Record>>, evs: seq<Event>, n: Name,
                                recs: seq<Record>, k: nat)
    requires n in names && Fits(recs) && k < |Frame(crc, recs)|
    requires var e := Run(Recovered(names, log), evs);
             AllFit(e.log) && |EncodeLog(crc, e.log)| + k < TWO_32
    ensures var e, a := Run(Recovered(names, log), evs), DB.DbRun(FreshDb(names, log), evs);
            && n in a.tabs
            && Recover(n, FramesOf(crc, EncodeLog(crc, e.log) + Frame(crc, recs)[..k])) == a.tabs[n].durable
  {
    hide Run, DB.DbRun, Recovered, FreshDb, Recover, FramesOf, EncodeLog, AllFit, Frame, Fits, NextFrame;
    var e := Run(Recovered(names, log), evs);
    TornStops(crc, recs, k);
    ReplayWhole(crc, e.log, Frame(crc, recs)[..k]);
    RecoveryIsExact(names, log, evs, n);
  }
}
