/**
 * The decoration loop of `listSnatches`: every finished session on the page
 * fetched from the store gets its transfer amounts, speeds and share ratio.
 */
module SnatchListing {
  import opened Records
  import opened Metrics

  /** A finished session with the figures `listSnatches` attaches to it. */
  datatype SnatchView = SnatchView(
    snatch: Snatch,
    uploadAmount: nat,     // handed to mksize at the head of upload_text
    uploadSpeed: real,     // handed to mksize at the tail of upload_text
    downloadAmount: nat,   // handed to mksize at the head of download_text
    downloadSpeed: real,   // handed to mksize at the tail of download_text
    shareRatio: Ratio)     // share_ratio

  /**
   * The figures of one session as the listing computes them: the amount shown
   * in the download text is the session's upload, not its download.
   */
  function DecorateSnatch(s: Snatch): (v: SnatchView)
    ensures v.snatch == s
    ensures v.uploadAmount == s.uploaded && v.downloadAmount == s.uploaded
    ensures v.uploadSpeed == SnatchUploadSpeed(s) && v.downloadSpeed == SnatchDownloadSpeed(s)
    ensures v.shareRatio == ShareRatio(s.uploaded, s.downloaded)
  {
    SnatchView(s, s.uploaded, SnatchUploadSpeed(s), s.uploaded, SnatchDownloadSpeed(s), ShareRatio(s.uploaded, s.downloaded))
  }

  /** Whenever a session moved different amounts each way, its download text shows the wrong one. */
  lemma DownloadTextShowsUpload(s: Snatch)
    requires s.uploaded != s.downloaded
    ensures DecorateSnatch(s).downloadAmount != s.downloaded
  {
  }

  /** A session that uploaded 1000 bytes and downloaded 400 shows 1000 in its download text. */
  lemma DownloadTextCounterexample()
    ensures DecorateSnatch(Snatch(1000, 400, 10, 10, 0, 0)).downloadAmount == 1000
  {
  }

  /** The figures of one session with the download text built from the download counter. */
  function DecorateSnatchIntended(s: Snatch): (v: SnatchView)
    ensures v.snatch == s
    ensures v.uploadAmount == s.uploaded && v.downloadAmount == s.downloaded
    ensures v.downloadSpeed * (s.leechTime as real) == v.downloadAmount as real || s.leechTime == 0
    ensures v.uploadSpeed == DecorateSnatch(s).uploadSpeed && v.downloadSpeed == DecorateSnatch(s).downloadSpeed
    ensures v.shareRatio == DecorateSnatch(s).shareRatio
  {
    DecorateSnatch(s).(downloadAmount := s.downloaded)
  }

  /**
   * The loop over the page `listSnatches` fetched (finished sessions of one
   * torrent, latest completion first): one view per session, in page order.
   */
  method ListSnatches(page: seq<Snatch>) returns (views: seq<SnatchView>)
    ensures |views| == |page|
    ensures forall i :: 0 <= i < |page| ==> views[i] == DecorateSnatch(page[i])
  {
    views := [];
    for i := 0 to |page|
      invariant |views| == i
      invariant forall j :: 0 <= j < i ==> views[j] == DecorateSnatch(page[j])
    {
      views := views + [DecorateSnatch(page[i])];
    }
  }
}
