# Transfer accounting and peer ranking of a NexusPHP tracker

This project models, in Dafny, the statistics and ranking rules of the
tracker's `TorrentRepository` (app/Repositories/TorrentRepository.php):

- the derived metrics of a live peer session: upload speed, download speed
  (a seeder's download stops at its completion time), download progress and
  share ratio;
- the share ratio, as a three-way result: a number truncated to thousandths,
  the "infinite" sentinel, or the "no data" sentinel;
- the speeds of a finished session ("snatch"), guarded by its seed and leech
  times;
- `listPeers`: grouping the peers of a torrent on the `seeder` column,
  ranking seeders by bytes uploaded (most first) and leechers by bytes still
  missing (fewest first), and decorating every record (`formatPeers`);
- the decoration loop of `listSnatches`;
- `formatRow`, which builds one filter of the torrent search box.

Modules, one per component:

- `Records` (records.dfy): the `Peer` and `Snatch` records, `SEEDER_YES` and `SEEDER_NO`.
- `Metrics` (metrics.dfy): the rate, progress and ratio functions and their lemmas.
- `PeerRanking` (peer_ranking.dfy): the comparators, the grouping, a stable insertion sort, `FormatPeers` and `ListPeers`.
- `SnatchListing` (snatch_listing.dfy): the snatch decoration and `ListSnatches`.
- `SearchBox` (search_box.dfy): `FormatRow`.

Byte counters and durations are `nat`, since they are unsigned columns.
Timestamps are integer seconds. PHP's float divisions are exact `real`
quotients. Each speed is stated by multiplication: speed times the divisor
gives the amount moved. The share ratio is the integer number of thousandths
`(1000 * uploaded) / downloaded`. For non-negative integers this equals
`floor(uploaded / downloaded * 1000)` computed exactly.

Two behaviours of the code are kept as written:

- `getSnatchUploadSpeed` guards only on `seedtime <= 0`, not on
  `seedtime + leechtime > 0`. A session with no seed time but positive leech
  time therefore reports a zero upload speed.
- `getDownloadProgress` has no guard against a torrent size of zero.

## Model

| member | source | states |
|---|---|---|
| `Metrics.DiffInSeconds` | app/Repositories/TorrentRepository.php:169 | the difference is the distance between the two timestamps, in either order |
| `Metrics.ElapsedSeconds` | app/Repositories/TorrentRepository.php:169 | the elapsed time is at least one second; it is the true distance when that is at least one second, and exactly one second when the timestamps coincide |
| `Metrics.Rate` | app/Repositories/TorrentRepository.php:170 | rate times seconds gives back the amount; a non-negative amount gives a rate between 0 and the amount; over one second the rate is the amount |
| `Metrics.PeerUploadSpeed` | app/Repositories/TorrentRepository.php:166-171 | speed times max(1, \|last_action - started\|) equals uploaded - uploadoffset, so it is always defined; it lies between 0 and that difference when the counter did not go back |
| `Metrics.DownloadEnd` | app/Repositories/TorrentRepository.php:176-180 | the end bound is `finishedat` for a seeder and `last_action` otherwise |
| `Metrics.PeerDownloadSpeed` | app/Repositories/TorrentRepository.php:173-182 | speed times max(1, \|end - started\|) equals downloaded - downloadoffset, with the seeder/leecher end bound |
| `Metrics.DownloadProgress` | app/Repositories/TorrentRepository.php:184-187 | progress/100 times the size equals the bytes already held (size - to_go) |
| `Metrics.ShareRatio` | app/Repositories/TorrentRepository.php:189-200 | exactly one of three cases: numeric iff downloaded > 0, infinite iff downloaded = 0 and uploaded > 0, no data iff both are 0; the thousandths t satisfy t·d ≤ 1000·u < (t+1)·d |
| `Metrics.ShareRatioTruncates` | app/Repositories/TorrentRepository.php:192 | the numeric ratio t/1000 is never above uploaded/downloaded and less than one thousandth below it (truncated, never rounded up) |
| `Metrics.ShareRatioRoundsDown` | app/Repositories/TorrentRepository.php:191-198 | 999 up over 1000 down gives 0.999; 500 up over 0 down is infinite; 0 over 0 is no data |
| `Metrics.UploadSpeedOneSecondFloor` | app/Repositories/TorrentRepository.php:169 | a session whose start and last announce coincide reports its whole upload as bytes per second |
| `Metrics.UploadSpeedOverHundredSeconds` | app/Repositories/TorrentRepository.php:166-171 | 10 000 000 bytes over 100 seconds is 100 000 bytes per second |
| `Metrics.SeederDownloadSpeedStopsAtCompletion` | app/Repositories/TorrentRepository.php:176-180 | two peers identical but for the seeder flag, completed after their start and before their last announce, with a positive download (downloaded above its offset), get different download speeds: the seeder's, measured to the earlier bound, is higher |
| `Metrics.RateFallsWithTime` | app/Repositories/TorrentRepository.php:170 | the same positive amount over a longer time is a strictly lower rate |
| `Metrics.DownloadProgressBounds` | app/Repositories/TorrentRepository.php:186 | with a positive size and 0 ≤ to_go ≤ size, progress lies in [0, 100] |
| `Metrics.DownloadProgressComplete` | app/Repositories/TorrentRepository.php:186 | progress is 100 exactly when to_go = 0, and 0 exactly when to_go = size |
| `Metrics.SnatchUploadSpeed` | app/Repositories/TorrentRepository.php:237-245 | zero when seedtime is 0, even with leech time; otherwise speed times (seedtime + leechtime) equals uploaded; never negative, never above uploaded |
| `Metrics.SnatchDownloadSpeed` | app/Repositories/TorrentRepository.php:247-255 | zero when leechtime is 0; otherwise speed times leechtime equals downloaded; never negative, never above downloaded |
| `PeerRanking.CompareSeeders` | app/Repositories/TorrentRepository.php:135-143 | returns 0 exactly on equal uploads, -1 exactly when the first uploaded more, 1 exactly when it uploaded less |
| `PeerRanking.CompareLeechers` | app/Repositories/TorrentRepository.php:147-155 | returns 0 exactly on equal to_go, -1 exactly when the first has less to go, 1 exactly when it has more |
| `PeerRanking.CompareIsThreeWay` | app/Repositories/TorrentRepository.php:135-155 | both comparators return -1, 0 or 1, their sign is antisymmetric, and "not after" is transitive |
| `PeerRanking.Sort` | app/Repositories/TorrentRepository.php:135-155 | the result is ordered by the group's comparator, is a permutation of the input, and is stable: the records that tie with any given record keep their input order |
| `PeerRanking.InsertionPoint` | app/Repositories/TorrentRepository.php:135-155 | in a sorted list, the position found follows every record that does not compare after the new one and precedes every record that does |
| `PeerRanking.InsertKeepsSorted` | app/Repositories/TorrentRepository.php:135-155 | inserting a record after everything that does not compare after it keeps a list ordered |
| `PeerRanking.TiesAppend` | app/Repositories/TorrentRepository.php:135-155 | the records tying with a given record in a concatenation are those of the first part followed by those of the second |
| `PeerRanking.InsertKeepsTies` | app/Repositories/TorrentRepository.php:135-155 | a record inserted after everything that does not compare after it comes behind every record it ties with |
| `PeerRanking.WithFlagCounts` | app/Repositories/TorrentRepository.php:133 | a group holds each record with its flag exactly as often as the input does, and no record with another flag |
| `PeerRanking.WithFlagMembers` | app/Repositories/TorrentRepository.php:133 | a record is in a group iff it is in the input and carries the group's flag |
| `PeerRanking.GroupsPartition` | app/Repositories/TorrentRepository.php:133-157 | when every flag is yes or no, the seeder and leecher groups together hold every input record exactly once |
| `PeerRanking.GroupBySeeder` | app/Repositories/TorrentRepository.php:133-134 | the two groups are the input records with flag `SEEDER_YES` and `SEEDER_NO`, in input order |
| `PeerRanking.Decorate` | app/Repositories/TorrentRepository.php:205-208 | a view keeps its peer and carries that peer's upload speed, download speed, progress and share ratio |
| `PeerRanking.FormatPeers` | app/Repositories/TorrentRepository.php:202-214 | one view per record, same count, same order, each the record's decoration |
| `PeerRanking.RankGroup` | app/Repositories/TorrentRepository.php:135-156 | a group comes out as a stable permutation of itself in comparator order, each record decorated |
| `PeerRanking.SeedersByUpload` | app/Repositories/TorrentRepository.php:135-143 | seeders in the seeder comparator's order have non-increasing `uploaded` |
| `PeerRanking.LeechersByToGo` | app/Repositories/TorrentRepository.php:147-155 | leechers in the leecher comparator's order have non-decreasing `to_go` |
| `PeerRanking.GroupKeepsFlag` | app/Repositories/TorrentRepository.php:133-147 | every record of a ranked group carries that group's flag |
| `PeerRanking.ListPeers` | app/Repositories/TorrentRepository.php:130-164 | the seeder list is a permutation of the `SEEDER_YES` records with uploaded non-increasing; the leecher list is a permutation of the `SEEDER_NO` records with to_go non-decreasing; equal keys keep their input order; every entry is its record's decoration |
| `SnatchListing.DecorateSnatch` | app/Repositories/TorrentRepository.php:226-228 | as written: the amount in the download text is the session's upload; the speeds are `Metrics.SnatchUploadSpeed` and `Metrics.SnatchDownloadSpeed`, whose own contracts make them zero when seedtime (upload) or leechtime (download) is 0; the ratio is the share ratio |
| `SnatchListing.DownloadTextShowsUpload` | app/Repositories/TorrentRepository.php:227 | whenever uploaded differs from downloaded, the download text shows an amount other than the download |
| `SnatchListing.DownloadTextCounterexample` | app/Repositories/TorrentRepository.php:227 | a session with 1000 bytes up and 400 down shows 1000 in its download text |
| `SnatchListing.DecorateSnatchIntended` | app/Repositories/TorrentRepository.php:227 | the download text shows the download, and, when leech time is positive, its speed times leech time equals that amount; everything else equals the shipped decoration |
| `SnatchListing.ListSnatches` | app/Repositories/TorrentRepository.php:225-234 | one view per fetched session, same count and order, each its decoration |
| `SearchBox.FormatRow` | app/Repositories/TorrentRepository.php:109-128 | the header is kept; there are \|items\| + 1 rows; row 0 is the "all" row (value 0, active 1, the given name); row i+1 has item i's name and id, active 0 and the given name, in input order |

## Findings

| source | as written | input that shows it | evidently intended | confidence | as-written member | corrected member |
|---|---|---|---|---|---|---|
| app/Repositories/TorrentRepository.php:227 | `download_text` of a snatch starts with `mksize($snatch->uploaded)` | a snatch with 1000 bytes uploaded and 400 downloaded shows 1000 as its download | `mksize($snatch->downloaded)`, as `formatPeers` does on line 206 | high; not executed | `SnatchListing.DecorateSnatch` (with `SnatchListing.DownloadTextShowsUpload`) | `SnatchListing.DecorateSnatchIntended` |

`SnatchListing.ListSnatches` keeps the shipped behaviour and uses
`DecorateSnatch`, so that the listing matches the running code.

## Left out

- `getList` (lines 29-76): query building, SQL `LIKE` and pagination in the database.
- `getSearchBox` (lines 78-107): it fetches the lookup tables from the database; only `formatRow` is modelled.
- The database side of `listSnatches` (lines 219-224): the filter on `finished`, the order by `completedat` descending and the pagination. `ListSnatches` takes the fetched page as input.
- The peer query of `listPeers` (line 133) and its eager loading. `ListPeers` takes the fetched peers as input, each carrying its torrent's size.
- The foreign helpers `mksize`, `mkprettytime`, Carbon's `diffForHumans`, `get_agent` and `htmlspecialchars`. The views carry the numbers handed to `mksize`. The fields `connect_time_total`, `last_action_human`, `agent_human`, `seed_time`, `leech_time` and `completed_at_human` are not modelled, because they depend on the clock or on these helpers.
- String rendering: `sprintf("%.2f%%")`, the `'%s@%s'` join and the `'/s'` suffix. The localized sentinel texts are the constructors `Infinite` and `NoData`.
- `Metrics.ShareRatio`: uses exact arithmetic. The source uses PHP doubles, and `u / d * 1000` can fall just below an integer before `floor`. For example, 201 up over 200 down can read 1.004 rather than 1.005.
- `Metrics.PeerUploadSpeed`, `Metrics.PeerDownloadSpeed`, `Metrics.SnatchUploadSpeed`, `Metrics.SnatchDownloadSpeed`: exact `real` quotients, not IEEE doubles.
- `Metrics.DownloadProgress`: requires a positive torrent size. The source has no guard, and PHP raises a division-by-zero error for a size of 0. That error path is not modelled.
- `PeerRanking.Decorate`, `PeerRanking.FormatPeers`, `PeerRanking.RankGroup` and `PeerRanking.ListPeers`: require a positive torrent size on every peer, because each of them computes the download progress. A listing that holds a peer with a size of 0 therefore loses the same division-by-zero error path (`app/Repositories/TorrentRepository.php:186`).
- `Metrics.DiffInSeconds`: follows Carbon 2, whose `diffInSeconds` is absolute by default. A null `finishedat` is not modelled; Carbon would measure it against the current time.
- `Records.IsSeeder`: app/Models/Peer.php is not part of this model. `isSeeder()` is taken to mean that the `seeder` column equals `SEEDER_YES`.
- `PeerRanking.Sort`: follows PHP 8, whose sort is stable; PHP 7's sort was not. The original keys that Laravel's `sort` keeps on the collection are not modelled; only the iteration order is.
- `PeerRanking.FormatPeers` and `SnatchListing.ListSnatches`: the source attaches fields to the fetched Eloquent objects in place. The model builds new view values instead, so aliasing of those objects is not captured.
- app/Models/Message.php: it declares a table, fillable fields, casts and two relations, and has no logic.
