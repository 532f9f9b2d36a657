/**
 * The records the tracker's ranking layer reads: one live peer session on a
 * torrent, and one finished transfer session ("snatch"). Byte counters and
 * durations are unsigned columns in the store, so they are `nat`; timestamps
 * are integer seconds.
 */
module Records {

  /** The value of the `seeder` column for a peer that holds the whole torrent. */
  const SEEDER_YES: string := "yes"
  /** The value of the `seeder` column for a peer that is still downloading. */
  const SEEDER_NO: string := "no"

  /**
   * One client's live session on a torrent, with the size of the torrent it
   * belongs to (the eagerly loaded `relative_torrent` relation).
   */
  datatype Peer = Peer(
    uploaded: nat,         // bytes uploaded so far
    downloaded: nat,       // bytes downloaded so far
    uploadOffset: nat,     // upload counter when the session started
    downloadOffset: nat,   // download counter when the session started
    toGo: nat,             // bytes still missing
    started: int,          // session start
    lastAction: int,       // last announce
    finishedAt: int,       // moment the download completed
    seeder: string,        // SEEDER_YES or SEEDER_NO
    torrentSize: nat)      // size of the torrent, in bytes

  /** `Peer::isSeeder()`: the seeder column holds SEEDER_YES. */
  predicate IsSeeder(p: Peer) {
    p.seeder == SEEDER_YES
  }

  /** One finished transfer session of a user on a torrent. */
  datatype Snatch = Snatch(
    uploaded: nat,         // bytes uploaded over the whole session
    downloaded: nat,       // bytes downloaded over the whole session
    seedTime: nat,         // seconds spent seeding
    leechTime: nat,        // seconds spent downloading
    completedAt: int,      // moment the download completed
    lastAction: int)       // last announce
}
