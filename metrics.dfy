/**
 * The derived transfer metrics: live-peer speeds, download progress, share
 * ratio and the speeds of finished sessions. PHP's float divisions are exact
 * `real` quotients here; each speed is the number the source hands to `mksize`.
 */
module Metrics {
  import opened Records

  /** Carbon's `diffInSeconds`, which is absolute by default. */
  function DiffInSeconds(from: int, to: int): (d: nat)
    ensures from + d == to || to + d == from
  {
    if from <= to then to - from else from - to
  }

  /** `max(1, diffInSeconds)`: the elapsed time, floored at one second. */
  function ElapsedSeconds(from: int, to: int): (s: nat)
    ensures s >= 1
    ensures DiffInSeconds(from, to) >= 1 ==> s == DiffInSeconds(from, to)
    ensures DiffInSeconds(from, to) == 0 ==> s == 1
  {
    if DiffInSeconds(from, to) < 1 then 1 else DiffInSeconds(from, to)
  }

  /** Bytes moved over an elapsed time: `amount / seconds`, seconds at least one. */
  function Rate(amount: int, seconds: nat): (r: real)
    requires seconds >= 1
    ensures r * (seconds as real) == amount as real
    ensures amount >= 0 ==> 0.0 <= r <= amount as real
    ensures seconds == 1 ==> r == amount as real
  {
    var q := (amount as real) / (seconds as real);
    assert q * (seconds as real) == amount as real;
    if amount >= 0 then
      assert 0.0 <= q;
      assert q * (seconds as real) - q == q * ((seconds - 1) as real);
      assert 0.0 <= q * ((seconds - 1) as real);
      q
    else
      q
  }

  /** The upload of this session, spread over the seconds since it started. */
  function PeerUploadSpeed(p: Peer): (r: real)
    ensures r * (ElapsedSeconds(p.started, p.lastAction) as real) == (p.uploaded - p.uploadOffset) as real
    ensures p.uploadOffset <= p.uploaded ==> 0.0 <= r <= (p.uploaded - p.uploadOffset) as real
  {
    Rate(p.uploaded - p.uploadOffset, ElapsedSeconds(p.started, p.lastAction))
  }

  /**
   * The moment download activity stopped: the completion time for a seeder,
   * the last announce for a leecher.
   */
  function DownloadEnd(p: Peer): (t: int)
    ensures IsSeeder(p) ==> t == p.finishedAt
    ensures !IsSeeder(p) ==> t == p.lastAction
  {
    if IsSeeder(p) then p.finishedAt else p.lastAction
  }

  /** The download of this session, spread over the seconds until `DownloadEnd`. */
  function PeerDownloadSpeed(p: Peer): (r: real)
    ensures r * (ElapsedSeconds(p.started, DownloadEnd(p)) as real) == (p.downloaded - p.downloadOffset) as real
    ensures p.downloadOffset <= p.downloaded ==> 0.0 <= r <= (p.downloaded - p.downloadOffset) as real
  {
    Rate(p.downloaded - p.downloadOffset, ElapsedSeconds(p.started, DownloadEnd(p)))
  }

  /**
   * The completed share of the torrent, in percent. The source divides by the
   * torrent size without a guard, so a size of zero is excluded.
   */
  function DownloadProgress(p: Peer): (r: real)
    requires p.torrentSize > 0
    ensures (r / 100.0) * (p.torrentSize as real) == (p.torrentSize - p.toGo) as real
  {
    100.0 * (1.0 - (p.toGo as real) / (p.torrentSize as real))
  }

  /** A share ratio: a number of thousandths, or one of the two sentinels. */
  datatype Ratio = Numeric(thousandths: nat) | Infinite | NoData

  /**
   * `floor(uploaded / downloaded * 1000) / 1000` when anything was downloaded,
   * otherwise "infinite" if anything was uploaded, otherwise "no data".
   */
  function ShareRatio(uploaded: nat, downloaded: nat): (r: Ratio)
    ensures r.Numeric? <==> downloaded > 0
    ensures r.Infinite? <==> downloaded == 0 && uploaded > 0
    ensures r.NoData? <==> downloaded == 0 && uploaded == 0
    ensures r.Numeric? ==> r.thousandths * downloaded <= 1000 * uploaded < (r.thousandths + 1) * downloaded
  {
    if downloaded != 0 then
      var t := (1000 * uploaded) / downloaded;
      FloorDivBounds(1000 * uploaded, downloaded);
      Numeric(t)
    else if uploaded != 0 then
      Infinite
    else
      NoData
  }

  /** The quotient of Euclidean division lies between the two multiples. */
  lemma FloorDivBounds(n: nat, d: nat)
    requires d > 0
    ensures (n / d) * d <= n < (n / d + 1) * d
  {
    assert n == (n / d) * d + n % d;
  }

  /**
   * Upload speed of a finished session: uploaded bytes over seed plus leech
   * time, or zero when the session never seeded.
   */
  function SnatchUploadSpeed(s: Snatch): (r: real)
    ensures s.seedTime == 0 ==> r == 0.0
    ensures s.seedTime > 0 ==> r * ((s.seedTime + s.leechTime) as real) == s.uploaded as real
    ensures 0.0 <= r <= s.uploaded as real
  {
    if s.seedTime <= 0 then 0.0 else Rate(s.uploaded, s.seedTime + s.leechTime)
  }

  /**
   * Download speed of a finished session: downloaded bytes over leech time,
   * or zero when the session never leeched.
   */
  function SnatchDownloadSpeed(s: Snatch): (r: real)
    ensures s.leechTime == 0 ==> r == 0.0
    ensures s.leechTime > 0 ==> r * (s.leechTime as real) == s.downloaded as real
    ensures 0.0 <= r <= s.downloaded as real
  {
    if s.leechTime <= 0 then 0.0 else Rate(s.downloaded, s.leechTime)
  }

  /** The ratio as a number: thousandths over one thousand. */
  function RatioValue(t: nat): real {
    (t as real) / 1000.0
  }

  /**
   * A numeric share ratio is the exact quotient truncated to three decimals:
   * never above it, and less than a thousandth below it.
   */
  lemma ShareRatioTruncates(uploaded: nat, downloaded: nat)
    requires downloaded > 0
    ensures ShareRatio(uploaded, downloaded).Numeric?
    ensures var v := RatioValue(ShareRatio(uploaded, downloaded).thousandths);
            var exact := (uploaded as real) / (downloaded as real);
            v <= exact < v + 0.001
  {
    var t := ShareRatio(uploaded, downloaded).thousandths;
    var d := downloaded as real;
    assert (t * downloaded) as real <= (1000 * uploaded) as real < ((t + 1) * downloaded) as real;
    QuotientBetween(t as real, (1000 * uploaded) as real, t as real + 1.0, d);
    assert ((1000 * uploaded) as real) / d == 1000.0 * ((uploaded as real) / d);
  }

  /** Dividing `a * d <= b < c * d` by a positive `d`. */
  lemma QuotientBetween(a: real, b: real, c: real, d: real)
    requires d > 0.0 && a * d <= b < c * d
    ensures a <= b / d < c
  {
    var q := b / d;
    assert q * d == b;
    assert (q - a) * d >= 0.0;
    assert (c - q) * d > 0.0;
  }

  /** 999 bytes up against 1000 down reads 0.999, not 1.0. */
  lemma ShareRatioRoundsDown()
    ensures ShareRatio(999, 1000) == Numeric(999)
    ensures ShareRatio(500, 0) == Infinite
    ensures ShareRatio(0, 0) == NoData
  {
    var r := ShareRatio(999, 1000);
    assert r.thousandths * 1000 <= 999000 < (r.thousandths + 1) * 1000;
  }

  /**
   * A session whose first and last announce fall in the same second is
   * credited with its whole upload as the speed of one second.
   */
  lemma UploadSpeedOneSecondFloor(p: Peer)
    requires p.started == p.lastAction
    ensures PeerUploadSpeed(p) == (p.uploaded - p.uploadOffset) as real
  {
  }

  /** 10 000 000 bytes over 100 seconds is 100 000 bytes per second. */
  lemma UploadSpeedOverHundredSeconds(p: Peer)
    requires p.uploaded == 10_000_000 && p.uploadOffset == 0
    requires p.lastAction == p.started + 100
    ensures PeerUploadSpeed(p) == 100_000.0
  {
  }

  /**
   * Two peers that differ only in the seeder flag use different end times:
   * a seeder that completed before its last announce shows a higher download
   * speed than the same session counted as a leecher.
   */
  lemma SeederDownloadSpeedStopsAtCompletion(p: Peer, q: Peer)
    requires IsSeeder(p) && q == p.(seeder := SEEDER_NO)
    requires p.started < p.finishedAt < p.lastAction
    requires p.downloadOffset < p.downloaded
    ensures PeerDownloadSpeed(p) > PeerDownloadSpeed(q)
  {
    var n := p.downloaded - p.downloadOffset;
    assert PeerDownloadSpeed(p) == Rate(n, ElapsedSeconds(p.started, p.finishedAt));
    assert PeerDownloadSpeed(q) == Rate(n, ElapsedSeconds(p.started, p.lastAction));
    RateFallsWithTime(n, ElapsedSeconds(p.started, p.finishedAt), ElapsedSeconds(p.started, p.lastAction));
  }

  /** The same positive amount over a longer time is a lower rate. */
  lemma RateFallsWithTime(amount: int, shorter: nat, longer: nat)
    requires amount > 0 && 1 <= shorter < longer
    ensures Rate(amount, shorter) > Rate(amount, longer)
  {
    var r1, r2 := Rate(amount, shorter), Rate(amount, longer);
    assert r1 * (shorter as real) == r2 * (longer as real);
    assert r2 > 0.0;
    assert r2 * (shorter as real) < r2 * (longer as real);
    assert (r1 - r2) * (shorter as real) > 0.0;
  }

  /** With at most the torrent still missing, progress lies in [0, 100]. */
  lemma DownloadProgressBounds(p: Peer)
    requires 0 < p.torrentSize && p.toGo <= p.torrentSize
    ensures 0.0 <= DownloadProgress(p) <= 100.0
  {
    var f := (p.toGo as real) / (p.torrentSize as real);
    assert f * (p.torrentSize as real) == p.toGo as real;
    assert 0.0 <= f;
    assert f <= 1.0;
  }

  /** Progress is 100 exactly when nothing is missing, and 0 exactly when all is. */
  lemma DownloadProgressComplete(p: Peer)
    requires 0 < p.torrentSize
    ensures DownloadProgress(p) == 100.0 <==> p.toGo == 0
    ensures DownloadProgress(p) == 0.0 <==> p.toGo == p.torrentSize
  {
    var r := DownloadProgress(p);
    assert (r / 100.0) * (p.torrentSize as real) == (p.torrentSize - p.toGo) as real;
  }
}
