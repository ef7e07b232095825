# Beam selection for globular-cluster observations

This project models the beam-selection logic of two scripts: `beam_strategy.py`, the radius report, and `neighbour_finder.py`, the neighbour report. It then proves properties of that model.

Both scripts first read a metadata record. Its `beams` mapping goes from beam keys (such as `cfbf00007`) to comma-separated text whose last two fields are a right ascension and a declination. The scripts build a catalogue of coherent-beam positions from it as follows:

- sort the entries by key;
- skip every entry whose text contains `unset`;
- take the last two fields of each remaining entry;
- drop the final position.

The radius report measures each catalogue position from the boresight. For each of the cluster's four radii, and optionally a user radius, it lists the beams strictly inside that radius, as tokens `cfbf00` followed by the index zero-padded to three digits.

The neighbour report measures the catalogue against one reference beam, argsorts the separations and prints ranks 1 to 10. When a second metadata file exists, it ranks that file's catalogue against the same reference, starting at rank 0.

The model is split into modules:

- `Text` (`text.dfy`) holds the Python string operations the scripts use:
  - the order `sorted` puts keys in;
  - the `in` test;
  - `split` with a non-empty separator.
- `Tokens` (`tokens.dfy`) holds the beam token format and its parser.
- `BeamCatalogue` (`catalogue.dfy`) holds:
  - the metadata and the catalogue loop, an imperative method proved against a function of its input;
  - the boresight and reference-beam lookups.
- `BeamStrategy` (`beam_strategy.dfy`) holds the bucket loops and the radius report.
- `NeighbourFinder` (`neighbour_finder.dfy`) holds the argsort ranking and the neighbour report.
- `Wrappers` (`wrappers.dfy`) holds `Option` and `Result`.

The separation of two positions is a parameter, `sep: (Coord, Coord) -> real`. `numpy.argsort` is a parameter too: `rank`, any rule satisfying `NeighbourFinder.IsRanker`, that is, one that turns every list of separations into a permutation of the positions with non-decreasing separation along it. `numpy.argsort` promises nothing about how it orders equal separations, so the neighbour report and every property of it are stated for every such rule. `NeighbourFinder.ArgSort`, an insertion sort on positions, shows that such a rule exists.

The model follows what the scripts do, including these details:

- **No empty-catalogue error.** The scripts raise no error for an empty catalogue: an empty or one-entry catalogue gives an empty neighbour list.
- **Second-epoch length is bounded by the first catalogue.** The second-epoch slice is bounded by `len(all_beams_sorted)`, the length of the FIRST catalogue. Slicing also clamps it to the second catalogue's length, so it can print up to eleven lines.
- **Rank 0 is not checked.** Rank 0 is dropped without checking that it is the reference beam. `NeighbourFinder.TiedRankZeroIsUnchecked` shows that when the two nearest beams are tied (the reference beam and a beam at the same sky position, say), swapping them gives another valid argsort, and the first reported line then names the other one of the two. Which of the two is dropped depends only on how the argsort orders ties.
- **One loader for both scripts.** `get_coherent_beam_coords` in neighbour_finder.py:20-47 repeats the one in beam_strategy.py:19-46 line for line. `BeamCatalogue.CoherentBeamCoords` and `BeamCatalogue.CatalogueContents` model both copies. The neighbour lines use the same `cfbf00{:03d}` token format (neighbour_finder.py:74) as the radius report, so `Tokens.TokenRoundTrip` covers them too.
- **Tokens are catalogue positions.** A beam's token is its position in the catalogue, not its key. When an earlier entry is `unset`, the token and the key differ.

## Model

| member | source | states |
|---|---|---|
| Text.StrLeTotal | beam_strategy.py:29-30 | the string order `sorted` uses compares any two keys |
| Text.StrLeTrans | beam_strategy.py:29-30 | the string order is transitive |
| Text.StrLeAntisym | beam_strategy.py:29-30 | two keys ordered both ways are equal |
| Text.ContainsIffOccurs | beam_strategy.py:38 | the `'unset' in v` test holds exactly when `unset` occurs at some position of `v` |
| Text.JoinSplit | beam_strategy.py:40-41 | re-joining the fields of `split(sep)` with `sep` gives back the record |
| Text.SplitFieldsFree | beam_strategy.py:40-41 | no field of `split(sep)` contains the separator |
| Text.SplitsIffContains | beam_strategy.py:40-41 | a record splits into two or more fields (so `[-2]` exists) exactly when it contains the separator |
| Text.LastTwoFields | beam_strategy.py:40-41 | fields `[-2]` and `[-1]` are separator-free, the record ends with them joined by the separator, and what precedes them ends with the separator |
| Tokens.Token | beam_strategy.py:96 | a token starts with `cfbf00` and has at least three characters after it, all decimal digits |
| Tokens.TokenRoundTrip | beam_strategy.py:96-99 | parsing `cfbf00{:03d}` of an index gives back that index |
| Tokens.TokenInjective | beam_strategy.py:96-99 | different beam indices get different tokens |
| Tokens.TokenWidth | beam_strategy.py:96-99 | indices below 1000 give nine-character tokens |
| Tokens.TokenListFaithful | beam_strategy.py:96-99 | a token list has one token per bucket entry, in order; each parses back to its entry; a beam's token is in the list exactly when the beam is in the bucket |
| BeamCatalogue.EntryLeTotal | beam_strategy.py:29 | the (key, value) tuple order compares any two entries |
| BeamCatalogue.EntryLeTrans | beam_strategy.py:29 | the tuple order is transitive |
| BeamCatalogue.SortEntries | beam_strategy.py:27-30 | the sorted entries are in ascending (key, value) order and are a permutation of the mapping's entries |
| BeamCatalogue.Retained | beam_strategy.py:37-39 | the loop keeps exactly the entries whose value does not contain `unset`, and keeps no entry more often than it occurs |
| BeamCatalogue.RetainedSorted | beam_strategy.py:37-39 | skipping entries keeps the survivors in sorted order |
| BeamCatalogue.RetainedRecordsOrdered | beam_strategy.py:27-39 | the kept records are exactly the mapping's non-`unset` (key, value) pairs, each value still beside its own key, with keys strictly ascending |
| BeamCatalogue.RetainedKeysDiffer | beam_strategy.py:27-30 | two kept records at different positions have different keys |
| BeamCatalogue.LastTwo | beam_strategy.py:40-41 | the only failure of `split(',')[-2]` / `[-1]` is an error naming the record |
| BeamCatalogue.LastTwoMeaning | beam_strategy.py:40-41 | a record fails exactly when it has no separator; otherwise RA and Dec are its last two fields |
| BeamCatalogue.CoordsOf | beam_strategy.py:37-41 | on success, one position per kept record, each being that record's last two fields; on failure, the error of the first kept record without a comma |
| BeamCatalogue.CoordsOfFails | beam_strategy.py:37-41 | parsing the kept records fails exactly when one of them has no comma |
| BeamCatalogue.ScanIsParseOfRetained | beam_strategy.py:37-41 | the single-pass loop (skip `unset`, stop at the first malformed record) equals filtering first and then parsing |
| BeamCatalogue.DropLast | beam_strategy.py:46 | `[:-1]` keeps a prefix one shorter, or the empty list |
| BeamCatalogue.CoherentBeamCoords | beam_strategy.py:19-46 | the loop that appends RA and Dec returns exactly the catalogue defined by `CatalogueOf`, including its errors |
| BeamCatalogue.CatalogueContents | beam_strategy.py:27-46 | a loaded catalogue has one position fewer than the kept records (none when nothing is kept); position `i` is the last two fields of kept record `i` |
| BeamCatalogue.CatalogueFails | beam_strategy.py:27-41 | loading fails exactly when the `beams` key is missing or some kept record has no comma |
| BeamCatalogue.BoresightCoords | beam_strategy.py:48-56 | a missing `boresight` key is an error; a boresight without a comma is an error; otherwise RA and Dec are its last two comma-separated fields |
| BeamCatalogue.Lookup | neighbour_finder.py:55 | the key lookup finds a value exactly when an entry has that key, and returns that entry's value |
| BeamCatalogue.ReferenceBeamCoords | neighbour_finder.py:51-60 | a missing `beams` mapping or reference key is an error; otherwise the reference is looked up in the raw mapping (before filtering or dropping), and the result succeeds exactly when that record contains `', '`, failing with `MalformedRecord` of the record otherwise; on success RA and Dec are the record's last two `', '`-separated fields |
| BeamCatalogue.Separations | neighbour_finder.py:69 | one separation per catalogue position, in catalogue order: entry `i` is the separation of position `i` from the reference |
| BeamStrategy.WithinMeaning | beam_strategy.py:84-93 | index `i` is in a bucket exactly when it is a catalogue position whose separation is strictly below the radius; each bucket is strictly increasing |
| BeamStrategy.WithinNested | beam_strategy.py:84-93 | buckets are computed independently, and a radius no larger than another gives a bucket contained in the other's |
| BeamStrategy.WithinEverything | beam_strategy.py:84-93 | a radius beyond every separation collects every position, in order |
| BeamStrategy.WithinStrict | beam_strategy.py:86-93 | a separation equal to the radius is excluded; with non-negative separations, a radius of zero or less gives an empty bucket |
| BeamStrategy.ClassifyStandard | beam_strategy.py:79-93 | the single appending loop fills the four buckets with exactly the strict-threshold sets for the core, half-light, half-mass and tidal radii |
| BeamStrategy.ClassifyUser | beam_strategy.py:107-112 | the user-radius loop applies the same strict test to the one user radius |
| BeamStrategy.ReportLineMembership | beam_strategy.py:96-99 | a beam's token is printed on a radius line exactly when its separation is strictly below that radius, and each printed token parses back to its bucket entry |
| BeamStrategy.DeriveValues | beam_strategy.py:76-116 | catalogue errors come first, then boresight errors; otherwise the report holds the token lists of the four buckets in print order (core, half-mass, half-light, tidal), plus a user line exactly when the option is not `default` |
| NeighbourFinder.PermutationFacts | neighbour_finder.py:70 | an argsort result has one entry per beam, all in range, every beam present and none repeated |
| NeighbourFinder.ArgSort | neighbour_finder.py:70 | the ranking built is a permutation of the positions with non-decreasing separation along it |
| NeighbourFinder.ArgSortIsRanker | neighbour_finder.py:70 | insertion ranking gives an argsort of every list of separations, so a `rank` rule the report requires exists |
| NeighbourFinder.SortReals | neighbour_finder.py:74 | `sorted(all_seps)` is ascending and a permutation of the separations |
| NeighbourFinder.AscendingUnique | neighbour_finder.py:74 | two ascending arrangements of the same separations are the same sequence |
| NeighbourFinder.GatherMultiset | neighbour_finder.py:70-74 | reading the separations along any permutation of the positions gives the same values |
| NeighbourFinder.ArgsortAgreesWithSorted | neighbour_finder.py:73-74 | for every valid argsort, `sorted(all_seps)[k]` is the separation of the beam at rank `k` |
| NeighbourFinder.FirstEpoch | neighbour_finder.py:71-74 | the first-epoch lines are ranks `1 .. min(11, n) - 1`; each line's printed separation is the separation of its own beam |
| NeighbourFinder.FirstEpochNearest | neighbour_finder.py:71 | at most ten lines, never the rank-0 beam, no beam twice, ascending separations; any beam other than rank 0 that is nearer than a reported beam is itself reported |
| NeighbourFinder.ClosestBeamNotReported | neighbour_finder.py:71 | a beam strictly nearer than all others holds rank 0 and is never reported |
| NeighbourFinder.TiedRankZeroIsUnchecked | neighbour_finder.py:70-71 | for any argsort whose two leading beams have equal separations, swapping those two gives another argsort. The two beams differ. Under the original the first line names the rank-1 beam; under the swap it names the rank-0 beam; all other lines are the same |
| NeighbourFinder.FirstLines | neighbour_finder.py:66-74 | for any `rank` rule, the first-epoch lines of a loaded catalogue: `min(11, n) - 1` of them (none for `n <= 1`), each naming a catalogue position and carrying that position's own separation from the reference |
| NeighbourFinder.SecondEpoch | neighbour_finder.py:81-84 | the second-epoch lines are ranks `0 .. min(11, n1, n2) - 1`, where `n1` is the first catalogue's length; each printed separation is its own beam's |
| NeighbourFinder.SecondEpochNearest | neighbour_finder.py:81 | at most eleven lines; the first is a nearest beam; no beam twice; ascending; any beam nearer than a reported one is reported |
| NeighbourFinder.SecondLines | neighbour_finder.py:78-84 | for any `rank` rule, the second catalogue's errors propagate; otherwise its lines are bounded by the first catalogue's length and each carries its own beam's separation from the same reference |
| NeighbourFinder.FindNeighbours | neighbour_finder.py:64-84 | for any `rank` rule, reference-lookup errors come first, then catalogue errors; otherwise the first lines are those of `FirstLines` for the loaded catalogue, and second-epoch lines (those of `SecondLines`, bounded by the first catalogue's length) appear exactly when the second metadata exists |

## Left out

- File, JSON and command-line handling: reading the metadata files, `optparse`, and `pandas.read_csv` with the cluster-table lookups. The metadata arrives as a `Meta` value. A key absent from the JSON is `None` and becomes a `MissingKey` error. A metadata file that cannot be opened is not modelled.
- The existence test `os.path.exists(meta_path2)` is the presence or absence of the second `Meta`.
- astropy: `SkyCoord` construction, sexagesimal parsing of the RA and Dec text, and `.separation`. The separation is the parameter `sep`. Positions keep the raw field text, so a field that astropy would reject is not an error in the model.
- Radius conversion from parsecs to degrees (beam_strategy.py:64-73) is floating-point arithmetic. The four radii arrive as a `Radii` value in degrees.
- The user radius arrives as a real. The `float(opts.radius)` conversion of its text is not modelled.
- Floating point in general: separations and radii are exact reals.
- Printing: the report lines are values.
  - The radius report's `",".join` of the token lists is not modelled.
  - The neighbour report's `'{}'.format` of the separation is not modelled; a neighbour line is a beam index and its separation.
  - The token of each neighbour line is `Tokens.Token` of its beam.
- `derive_from_user`, which only prints a path.
- `harmonic_finder.py`: it calls external commands and computes floating-point frequency ratios.
- The particular order in which `numpy.argsort` (its default quicksort) places equal separations is not modelled. The report takes the ranking rule as the parameter `rank`, constrained only by `IsRanker`.
- BeamCatalogue.CoherentBeamCoords: `SkyCoord(...)[:-1]` on an empty catalogue is taken to be empty, as Python list slicing is.
