/**
 * `listPeers`: the peers of a torrent are grouped on their seeder flag,
 * seeders are ranked by bytes uploaded (most first) and leechers by bytes
 * still missing (fewest first), and every record is decorated with its
 * derived metrics.
 */
module PeerRanking {
  import opened Records
  import opened Metrics

  /** The seeders' comparator: 1 when `a` uploaded less, so larger uploads come first. */
  function CompareSeeders(a: Peer, b: Peer): (r: int)
    ensures r == 0 <==> a.uploaded == b.uploaded
    ensures r == -1 <==> a.uploaded > b.uploaded
    ensures r == 1 <==> a.uploaded < b.uploaded
  {
    var x := a.uploaded;
    var y := b.uploaded;
    if x == y then 0 else if x < y then 1 else -1
  }

  /** The leechers' comparator: -1 when `a` has less to go, so near-complete downloads come first. */
  function CompareLeechers(a: Peer, b: Peer): (r: int)
    ensures r == 0 <==> a.toGo == b.toGo
    ensures r == -1 <==> a.toGo < b.toGo
    ensures r == 1 <==> a.toGo > b.toGo
  {
    var x := a.toGo;
    var y := b.toGo;
    if x == y then 0 else if x < y then -1 else 1
  }

  /** Which of the two rankings a list follows. */
  datatype Order = BySeeding | ByLeeching

  function Compare(o: Order, a: Peer, b: Peer): int {
    match o
    case BySeeding => CompareSeeders(a, b)
    case ByLeeching => CompareLeechers(a, b)
  }

  /** Each comparator is a three-way comparison with an antisymmetric sign and a transitive order. */
  lemma CompareIsThreeWay(o: Order, a: Peer, b: Peer, c: Peer)
    ensures Compare(o, a, b) in {-1, 0, 1}
    ensures Compare(o, a, b) == -Compare(o, b, a)
    ensures Compare(o, a, b) <= 0 && Compare(o, b, c) <= 0 ==> Compare(o, a, c) <= 0
  {
  }

  /** No earlier record of `s` compares after a later one. */
  ghost predicate SortedBy(o: Order, s: seq<Peer>) {
    forall i, j :: 0 <= i < j < |s| ==> Compare(o, s[i], s[j]) <= 0
  }

  /**
   * `Collection::sort` with the group's comparator, written as a stable
   * insertion sort: each record goes after every record that does not compare
   * after it.
   */
  method Sort(o: Order, peers: seq<Peer>) returns (sorted: seq<Peer>)
    ensures SortedBy(o, sorted)
    ensures multiset(sorted) == multiset(peers)
    ensures forall y :: Ties(o, sorted, y) == Ties(o, peers, y)
  {
    sorted := [];
    for i := 0 to |peers|
      invariant SortedBy(o, sorted)
      invariant multiset(sorted) == multiset(peers[..i])
      invariant forall y :: Ties(o, sorted, y) == Ties(o, peers[..i], y)
    {
      var k := InsertionPoint(o, sorted, peers[i]);
      InsertKeepsSorted(o, sorted, k, peers[i]);
      InsertAddsOne(sorted, k, peers[i]);
      assert peers[..i + 1] == peers[..i] + [peers[i]];
      forall y ensures Ties(o, sorted[..k] + [peers[i]] + sorted[k..], y) == Ties(o, peers[..i + 1], y) {
        InsertKeepsTies(o, sorted, k, peers[i], y);
        TiesAppend(o, peers[..i], [peers[i]], y);
      }
      sorted := sorted[..k] + [peers[i]] + sorted[k..];
    }
    assert peers[..|peers|] == peers;
  }

  /** The records of `s` that tie with `y` under the comparator, in the order of `s`. */
  function Ties(o: Order, s: seq<Peer>, y: Peer): seq<Peer> {
    if s == [] then []
    else
      var last := s[|s| - 1];
      Ties(o, s[..|s| - 1], y) + (if Compare(o, last, y) == 0 then [last] else [])
  }

  /** Ties distribute over concatenation. */
  lemma {:induction false} TiesAppend(o: Order, a: seq<Peer>, b: seq<Peer>, y: Peer)
    ensures Ties(o, a + b, y) == Ties(o, a, y) + Ties(o, b, y)
  {
    if b == [] {
      assert a + b == a;
    } else {
      var init := b[..|b| - 1];
      assert a + b == (a + init) + [b[|b| - 1]];
      assert (a + b)[..|a + b| - 1] == a + init;
      TiesAppend(o, a, init, y);
    }
  }

  /** A list none of whose records ties with `y` has no ties with `y`. */
  lemma {:induction false} NoTies(o: Order, s: seq<Peer>, y: Peer)
    requires forall j :: 0 <= j < |s| ==> Compare(o, s[j], y) != 0
    ensures Ties(o, s, y) == []
  {
    if s != [] {
      NoTies(o, s[..|s| - 1], y);
    }
  }

  /**
   * Inserting `x` after everything that does not compare after it puts `x`
   * behind every record it ties with: the ties of the result are those of
   * `s` followed by `x`'s own.
   */
  lemma InsertKeepsTies(o: Order, s: seq<Peer>, k: nat, x: Peer, y: Peer)
    requires k <= |s|
    requires forall j :: k <= j < |s| ==> Compare(o, s[j], x) > 0
    ensures Ties(o, s[..k] + [x] + s[k..], y) == Ties(o, s, y) + Ties(o, [x], y)
  {
    InsertSplitsTies(o, s, k, x, y);
    TiesOnOneSide(o, s, k, x, y);
    SwapAroundEmpty(Ties(o, s[..k], y), Ties(o, [x], y), Ties(o, s[k..], y));
  }

  /** Two neighbours commute when one of them is empty. */
  lemma SwapAroundEmpty(a: seq<Peer>, b: seq<Peer>, c: seq<Peer>)
    requires b == [] || c == []
    ensures a + b + c == a + c + b
  {
    if b == [] {
      assert a + b + c == a + c;
    } else {
      assert a + b + c == a + b;
    }
  }

  /** Cutting `s` at `k`, and inserting `x` there, splits its ties the same way. */
  lemma InsertSplitsTies(o: Order, s: seq<Peer>, k: nat, x: Peer, y: Peer)
    requires k <= |s|
    ensures Ties(o, s, y) == Ties(o, s[..k], y) + Ties(o, s[k..], y)
    ensures Ties(o, s[..k] + [x] + s[k..], y)
         == Ties(o, s[..k], y) + Ties(o, [x], y) + Ties(o, s[k..], y)
  {
    var front, back := s[..k], s[k..];
    assert s == front + back;
    TiesAppend(o, front, back, y);
    TiesAppend(o, front + [x], back, y);
    TiesAppend(o, front, [x], y);
  }

  /**
   * When every record behind position `k` compares after `x`, `x` and that
   * tail cannot both hold ties with `y`.
   */
  lemma TiesOnOneSide(o: Order, s: seq<Peer>, k: nat, x: Peer, y: Peer)
    requires k <= |s|
    requires forall j :: k <= j < |s| ==> Compare(o, s[j], x) > 0
    ensures Ties(o, [x], y) == [] || Ties(o, s[k..], y) == []
  {
    TiesOfOne(o, x, y);
    if Compare(o, x, y) == 0 {
      var back := s[k..];
      forall j | 0 <= j < |back| ensures Compare(o, back[j], x) > 0 {
        assert back[j] == s[k + j];
      }
      BehindDoNotTie(o, back, x, y);
    }
  }

  /** A single record ties with `y` or contributes nothing. */
  lemma TiesOfOne(o: Order, x: Peer, y: Peer)
    ensures Ties(o, [x], y) == if Compare(o, x, y) == 0 then [x] else []
  {
    assert [x][..0] == [];
  }

  /** Records that compare after `x` cannot tie with anything `x` ties with. */
  lemma BehindDoNotTie(o: Order, back: seq<Peer>, x: Peer, y: Peer)
    requires Compare(o, x, y) == 0
    requires forall j :: 0 <= j < |back| ==> Compare(o, back[j], x) > 0
    ensures Ties(o, back, y) == []
  {
    forall j | 0 <= j < |back| ensures Compare(o, back[j], y) != 0 {
      assert Compare(o, back[j], x) > 0;
    }
    NoTies(o, back, y);
  }

  /**
   * Where a stable insertion puts `x` into a sorted list: behind every record
   * that does not compare after it, ahead of every record that does.
   */
  method InsertionPoint(o: Order, s: seq<Peer>, x: Peer) returns (k: nat)
    requires SortedBy(o, s)
    ensures k <= |s|
    ensures forall j :: 0 <= j < k ==> Compare(o, s[j], x) <= 0
    ensures forall j :: k <= j < |s| ==> Compare(o, s[j], x) > 0
  {
    k := |s|;
    while k > 0 && Compare(o, s[k - 1], x) > 0
      invariant 0 <= k <= |s|
      invariant forall j :: k <= j < |s| ==> Compare(o, s[j], x) > 0
    {
      k := k - 1;
    }
    forall j | 0 <= j < k ensures Compare(o, s[j], x) <= 0 {
      if j < k - 1 {
        CompareIsThreeWay(o, s[j], s[k - 1], x);
      }
    }
  }

  /** Inserting `x` after everything that does not compare after it keeps a list sorted. */
  lemma InsertKeepsSorted(o: Order, s: seq<Peer>, k: nat, x: Peer)
    requires SortedBy(o, s) && k <= |s|
    requires k > 0 ==> Compare(o, s[k - 1], x) <= 0
    requires forall j :: k <= j < |s| ==> Compare(o, s[j], x) > 0
    ensures SortedBy(o, s[..k] + [x] + s[k..])
  {
    var t := s[..k] + [x] + s[k..];
    forall i, j | 0 <= i < j < |t| ensures Compare(o, t[i], t[j]) <= 0 {
      if j < k {
        assert t[i] == s[i] && t[j] == s[j];
      } else if j == k {
        assert t[i] == s[i] && t[j] == x;
        CompareIsThreeWay(o, s[i], s[k - 1], x);
      } else if i == k {
        assert t[j] == s[j - 1];
        CompareIsThreeWay(o, x, s[j - 1], x);
      } else if i < k {
        assert t[i] == s[i] && t[j] == s[j - 1];
      } else {
        assert t[i] == s[i - 1] && t[j] == s[j - 1];
      }
    }
  }

  /** Inserting `x` anywhere adds exactly `x`. */
  lemma InsertAddsOne(s: seq<Peer>, k: nat, x: Peer)
    requires k <= |s|
    ensures multiset(s[..k] + [x] + s[k..]) == multiset(s) + multiset{x}
  {
    assert s == s[..k] + s[k..];
  }

  /** The records of `peers` whose seeder column holds `flag`, in input order. */
  function WithFlag(peers: seq<Peer>, flag: string): seq<Peer> {
    if peers == [] then []
    else
      var last := peers[|peers| - 1];
      WithFlag(peers[..|peers| - 1], flag) + (if last.seeder == flag then [last] else [])
  }

  /**
   * A group holds every record with its flag as often as the input does, and
   * no other record.
   */
  lemma {:induction false} WithFlagCounts(peers: seq<Peer>, flag: string, p: Peer)
    ensures multiset(WithFlag(peers, flag))[p] == if p.seeder == flag then multiset(peers)[p] else 0
  {
    if peers != [] {
      var init, last := peers[..|peers| - 1], peers[|peers| - 1];
      assert peers == init + [last];
      WithFlagCounts(init, flag, p);
    }
  }

  /** A record is in a group exactly when it is in the input and carries the group's flag. */
  lemma WithFlagMembers(peers: seq<Peer>, flag: string, p: Peer)
    ensures p in WithFlag(peers, flag) <==> p in peers && p.seeder == flag
  {
    WithFlagCounts(peers, flag, p);
    assert p in WithFlag(peers, flag) <==> p in multiset(WithFlag(peers, flag));
  }

  /**
   * When every record is either a seeder or a leecher, the two groups together
   * hold every record exactly once.
   */
  lemma {:induction false} GroupsPartition(peers: seq<Peer>)
    requires forall i :: 0 <= i < |peers| ==> peers[i].seeder == SEEDER_YES || peers[i].seeder == SEEDER_NO
    ensures multiset(WithFlag(peers, SEEDER_YES)) + multiset(WithFlag(peers, SEEDER_NO)) == multiset(peers)
  {
    if peers != [] {
      var init, last := peers[..|peers| - 1], peers[|peers| - 1];
      assert peers == init + [last];
      GroupsPartition(init);
    }
  }

  /**
   * `Collection::groupBy('seeder')` read back through `get(SEEDER_YES)` and
   * `get(SEEDER_NO)`: one pass that keeps the input order within each group.
   */
  method GroupBySeeder(peers: seq<Peer>) returns (seeders: seq<Peer>, leechers: seq<Peer>)
    ensures seeders == WithFlag(peers, SEEDER_YES)
    ensures leechers == WithFlag(peers, SEEDER_NO)
  {
    seeders, leechers := [], [];
    for i := 0 to |peers|
      invariant seeders == WithFlag(peers[..i], SEEDER_YES)
      invariant leechers == WithFlag(peers[..i], SEEDER_NO)
    {
      assert peers[..i + 1][..i] == peers[..i];
      if peers[i].seeder == SEEDER_YES {
        seeders := seeders + [peers[i]];
      } else if peers[i].seeder == SEEDER_NO {
        leechers := leechers + [peers[i]];
      }
    }
    assert peers[..|peers|] == peers;
  }

  /** A peer with the figures `formatPeers` attaches to it. */
  datatype PeerView = PeerView(
    peer: Peer,
    uploadSpeed: real,     // handed to mksize for upload_text
    downloadSpeed: real,   // handed to mksize for download_text
    progress: real,        // download_progress, before "%.2f%%" formatting
    shareRatio: Ratio)     // share_ratio

  /** The figures of one peer; its torrent must have a positive size. */
  function Decorate(p: Peer): (v: PeerView)
    requires p.torrentSize > 0
    ensures v.peer == p
    ensures v.uploadSpeed == PeerUploadSpeed(p) && v.downloadSpeed == PeerDownloadSpeed(p)
    ensures v.progress == DownloadProgress(p) && v.shareRatio == ShareRatio(p.uploaded, p.downloaded)
  {
    PeerView(p, PeerUploadSpeed(p), PeerDownloadSpeed(p), DownloadProgress(p), ShareRatio(p.uploaded, p.downloaded))
  }

  /** The peers behind a list of views, in order. */
  function PeersOf(views: seq<PeerView>): (peers: seq<Peer>)
    ensures |peers| == |views|
    ensures forall i :: 0 <= i < |views| ==> peers[i] == views[i].peer
  {
    seq(|views|, i requires 0 <= i < |views| => views[i].peer)
  }

  /** `formatPeers`: decorate every record, keeping the count and the order. */
  method FormatPeers(peers: seq<Peer>) returns (views: seq<PeerView>)
    requires forall i :: 0 <= i < |peers| ==> peers[i].torrentSize > 0
    ensures |views| == |peers|
    ensures forall i :: 0 <= i < |peers| ==> views[i] == Decorate(peers[i])
    ensures PeersOf(views) == peers
  {
    views := [];
    for i := 0 to |peers|
      invariant |views| == i
      invariant forall j :: 0 <= j < i ==> views[j] == Decorate(peers[j])
    {
      views := views + [Decorate(peers[i])];
    }
  }

  /**
   * One group of `listPeers`: sorted with the group's comparator, then
   * decorated by `formatPeers`.
   */
  method RankGroup(o: Order, group: seq<Peer>) returns (views: seq<PeerView>)
    requires forall i :: 0 <= i < |group| ==> group[i].torrentSize > 0
    ensures multiset(PeersOf(views)) == multiset(group)
    ensures forall i, j :: 0 <= i < j < |views| ==> Compare(o, views[i].peer, views[j].peer) <= 0
    ensures forall y :: Ties(o, PeersOf(views), y) == Ties(o, group, y)
    ensures forall i :: 0 <= i < |views| ==> views[i].peer.torrentSize > 0 && views[i] == Decorate(views[i].peer)
  {
    var sorted := Sort(o, group);
    forall i | 0 <= i < |sorted| ensures sorted[i].torrentSize > 0 {
      assert sorted[i] in multiset(group);
    }
    views := FormatPeers(sorted);
  }

  /** Seeders in comparator order have non-increasing uploads. */
  lemma SeedersByUpload(views: seq<PeerView>)
    requires forall i, j :: 0 <= i < j < |views| ==> Compare(BySeeding, views[i].peer, views[j].peer) <= 0
    ensures forall i, j :: 0 <= i < j < |views| ==> views[i].peer.uploaded >= views[j].peer.uploaded
  {
    forall i, j | 0 <= i < j < |views| ensures views[i].peer.uploaded >= views[j].peer.uploaded {
      assert CompareSeeders(views[i].peer, views[j].peer) <= 0;
    }
  }

  /** Leechers in comparator order have non-decreasing bytes to go. */
  lemma LeechersByToGo(views: seq<PeerView>)
    requires forall i, j :: 0 <= i < j < |views| ==> Compare(ByLeeching, views[i].peer, views[j].peer) <= 0
    ensures forall i, j :: 0 <= i < j < |views| ==> views[i].peer.toGo <= views[j].peer.toGo
  {
    forall i, j | 0 <= i < j < |views| ensures views[i].peer.toGo <= views[j].peer.toGo {
      assert CompareLeechers(views[i].peer, views[j].peer) <= 0;
    }
  }

  /** A permutation of a group holds only records with that group's flag. */
  lemma GroupKeepsFlag(peers: seq<Peer>, flag: string, views: seq<PeerView>)
    requires multiset(PeersOf(views)) == multiset(WithFlag(peers, flag))
    ensures forall i :: 0 <= i < |views| ==> views[i].peer.seeder == flag
  {
    forall i | 0 <= i < |views| ensures views[i].peer.seeder == flag {
      assert PeersOf(views)[i] in multiset(WithFlag(peers, flag));
      WithFlagMembers(peers, flag, views[i].peer);
    }
  }

  /**
   * `listPeers`: the decorated seeders, most uploaded first, and the decorated
   * leechers, least to go first. A group with no records is an empty list.
   */
  method ListPeers(peers: seq<Peer>) returns (seederList: seq<PeerView>, leecherList: seq<PeerView>)
    requires forall i :: 0 <= i < |peers| ==> peers[i].torrentSize > 0
    ensures multiset(PeersOf(seederList)) == multiset(WithFlag(peers, SEEDER_YES))
    ensures multiset(PeersOf(leecherList)) == multiset(WithFlag(peers, SEEDER_NO))
    ensures forall y :: Ties(BySeeding, PeersOf(seederList), y) == Ties(BySeeding, WithFlag(peers, SEEDER_YES), y)
    ensures forall y :: Ties(ByLeeching, PeersOf(leecherList), y) == Ties(ByLeeching, WithFlag(peers, SEEDER_NO), y)
    ensures forall i, j :: 0 <= i < j < |seederList| ==> seederList[i].peer.uploaded >= seederList[j].peer.uploaded
    ensures forall i, j :: 0 <= i < j < |leecherList| ==> leecherList[i].peer.toGo <= leecherList[j].peer.toGo
    ensures forall i :: 0 <= i < |seederList| ==> IsSeeder(seederList[i].peer)
    ensures forall i :: 0 <= i < |leecherList| ==> leecherList[i].peer.seeder == SEEDER_NO
    ensures forall i :: 0 <= i < |seederList| ==> seederList[i].peer.torrentSize > 0 && seederList[i] == Decorate(seederList[i].peer)
    ensures forall i :: 0 <= i < |leecherList| ==> leecherList[i].peer.torrentSize > 0 && leecherList[i] == Decorate(leecherList[i].peer)
  {
    seederList, leecherList := [], [];
    var seeders, leechers := GroupBySeeder(peers);
    GroupOfValidPeers(peers, SEEDER_YES);
    GroupOfValidPeers(peers, SEEDER_NO);
    if |seeders| > 0 {
      seederList := RankGroup(BySeeding, seeders);
      SeedersByUpload(seederList);
    }
    if |leechers| > 0 {
      leecherList := RankGroup(ByLeeching, leechers);
      LeechersByToGo(leecherList);
    }
    GroupKeepsFlag(peers, SEEDER_YES, seederList);
    GroupKeepsFlag(peers, SEEDER_NO, leecherList);
  }

  /** Every record of a group comes from the input, so it keeps the input's positive sizes. */
  lemma GroupOfValidPeers(peers: seq<Peer>, flag: string)
    requires forall i :: 0 <= i < |peers| ==> peers[i].torrentSize > 0
    ensures forall i :: 0 <= i < |WithFlag(peers, flag)| ==> WithFlag(peers, flag)[i].torrentSize > 0
  {
    var g := WithFlag(peers, flag);
    forall i | 0 <= i < |g| ensures g[i].torrentSize > 0 {
      WithFlagMembers(peers, flag, g[i]);
    }
  }
}
