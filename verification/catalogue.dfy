/** Loading the coherent-beam catalogue and the reference positions from a
    parsed observation metadata record (`get_coherent_beam_coords`,
    `get_boresight_coords`, `get_reference_beam_coords`). Positions stay as the
    right-ascension and declination text the record holds; turning that text
    into angles is the coordinate library's job and is not modelled. */
module BeamCatalogue {
  import opened Wrappers
  import opened Text

  /** One `key: value` pair of the metadata's `beams` object. */
  datatype Entry = Entry(key: string, value: string)

  /** The keys of a JSON object are distinct. */
  predicate DistinctKeys(es: seq<Entry>)
  {
    forall i, j :: 0 <= i < j < |es| ==> es[i].key != es[j].key
  }

  /** The `beams` object, in the order its keys were read. */
  type BeamMap = es: seq<Entry> | DistinctKeys(es)

  /** The parsed metadata file; a field is `None` when the file lacks that key. */
  datatype Meta = Meta(boresight: Option<string>, beams: Option<BeamMap>)

  /** A sky position as the record gives it: right ascension (hours) and
      declination (degrees), still as text. */
  datatype Coord = Coord(ra: string, dec: string)

  datatype LoadError =
    | MissingKey(key: string)         // a `KeyError` on the metadata
    | MalformedRecord(record: string) // an `IndexError` taking field [-2]

  type Loaded<T> = Result<T, LoadError>

  /** Python's order on `(key, value)` tuples, which `sorted(zip(keys, vals))` uses. */
  predicate EntryLe(x: Entry, y: Entry)
  {
    StrLe(x.key, y.key) && (x.key == y.key ==> StrLe(x.value, y.value))
  }

  lemma EntryLeTotal(x: Entry, y: Entry)
    ensures EntryLe(x, y) || EntryLe(y, x)
  {
    StrLeTotal(x.key, y.key);
    StrLeTotal(x.value, y.value);
    if StrLe(x.key, y.key) && StrLe(y.key, x.key) {
      StrLeAntisym(x.key, y.key);
    }
  }

  lemma EntryLeTrans(x: Entry, y: Entry, z: Entry)
    requires EntryLe(x, y) && EntryLe(y, z)
    ensures EntryLe(x, z)
  {
    StrLeTrans(x.key, y.key, z.key);
    if x.key == z.key {
      StrLeAntisym(x.key, y.key);
      StrLeTrans(x.value, y.value, z.value);
    }
  }

  predicate SortedEntries(s: seq<Entry>)
  {
    forall i, j :: 0 <= i < j < |s| ==> EntryLe(s[i], s[j])
  }

  function InsertEntry(e: Entry, s: seq<Entry>): (r: seq<Entry>)
    requires SortedEntries(s)
    ensures SortedEntries(r) && multiset(r) == multiset(s) + multiset{e}
    decreases |s|
  {
    if s == [] then [e]
    else if EntryLe(e, s[0]) then
      InsertEntryFront(e, s);
      [e] + s
    else
      var rest := InsertEntry(e, s[1..]);
      InsertEntryBehind(e, s, rest);
      [s[0]] + rest
  }

  lemma InsertEntryFront(e: Entry, s: seq<Entry>)
    requires SortedEntries(s) && s != [] && EntryLe(e, s[0])
    ensures SortedEntries([e] + s) && multiset([e] + s) == multiset(s) + multiset{e}
  {
    var r := [e] + s;
    forall i, j | 0 <= i < j < |r| ensures EntryLe(r[i], r[j]) {
      if i == 0 && j > 1 { EntryLeTrans(e, s[0], s[j - 1]); }
    }
  }

  lemma InsertEntryBehind(e: Entry, s: seq<Entry>, rest: seq<Entry>)
    requires SortedEntries(s) && s != [] && !EntryLe(e, s[0])
    requires SortedEntries(rest) && multiset(rest) == multiset(s[1..]) + multiset{e}
    ensures SortedEntries([s[0]] + rest) && multiset([s[0]] + rest) == multiset(s) + multiset{e}
  {
    EntryLeTotal(e, s[0]);
    forall x | x in multiset(rest) ensures EntryLe(s[0], x) {
      if x != e {
        assert x in multiset(s[1..]);
        var p :| 0 <= p < |s[1..]| && s[1..][p] == x;
        assert s[p + 1] == x;
      }
    }
    ConsSorted(s[0], rest);
    assert s == [s[0]] + s[1..];
  }

  lemma ConsSorted(h: Entry, rest: seq<Entry>)
    requires SortedEntries(rest) && forall x :: x in multiset(rest) ==> EntryLe(h, x)
    ensures SortedEntries([h] + rest)
  {
    var r := [h] + rest;
    forall i, j | 0 <= i < j < |r| ensures EntryLe(r[i], r[j]) {
      assert r[j] == rest[j - 1] && rest[j - 1] in multiset(rest);
      if i > 0 { assert r[i] == rest[i - 1]; }
    }
  }

  /** `sorted` on the `(key, value)` pairs: the same pairs, in ascending order. */
  function SortEntries(s: seq<Entry>): (r: seq<Entry>)
    ensures SortedEntries(r) && multiset(r) == multiset(s)
    decreases |s|
  {
    if s == [] then []
    else
      assert s == [s[0]] + s[1..];
      InsertEntry(s[0], SortEntries(s[1..]))
  }

  /** The inactive-slot marker test `'unset' in vals[i]`. */
  predicate IsUnset(e: Entry)
  {
    Contains(e.value, "unset")
  }

  /** The records the catalogue loop keeps, in the order it visits them. */
  function Retained(s: seq<Entry>): (r: seq<Entry>)
    ensures multiset(r) <= multiset(s)
    ensures forall e :: e in r <==> e in s && !IsUnset(e)
    decreases |s|
  {
    if s == [] then []
    else
      var init := s[..|s| - 1];
      assert s == init + [s[|s| - 1]];
      if IsUnset(s[|s| - 1]) then Retained(init) else Retained(init) + [s[|s| - 1]]
  }

  /** Dropping records keeps the survivors in their order. */
  lemma {:induction false} RetainedSorted(s: seq<Entry>)
    requires SortedEntries(s)
    ensures SortedEntries(Retained(s))
    decreases |s|
  {
    if s != [] {
      var init := s[..|s| - 1];
      var last := s[|s| - 1];
      RetainedSorted(init);
      var r0 := Retained(init);
      forall k | 0 <= k < |r0| ensures EntryLe(r0[k], last) {
        assert r0[k] in r0;
        var p :| 0 <= p < |init| && init[p] == r0[k];
        assert s[p] == init[p];
      }
    }
  }

  /** The records `get_coherent_beam_coords` turns into positions, before its
      final drop of the last one. */
  function RetainedRecords(beams: BeamMap): (kept: seq<Entry>)
  {
    Retained(SortEntries(beams))
  }

  /** `record.split(sep)[-2]` and `[-1]`: the last two fields, or the
      `IndexError` raised when the record splits into one field only. */
  function LastTwo(record: string, sep: string): (r: Loaded<Coord>)
    requires sep != []
    ensures r.Err? ==> r.error == MalformedRecord(record)
  {
    var f := Split(record, sep);
    if |f| < 2 then Err(MalformedRecord(record)) else Ok(Coord(f[|f| - 2], f[|f| - 1]))
  }

  /** A record is malformed exactly when it holds no separator; otherwise its
      right ascension and declination are its last two fields. */
  lemma LastTwoMeaning(record: string, sep: string)
    requires sep != []
    ensures LastTwo(record, sep).Err? <==> !Contains(record, sep)
    ensures LastTwo(record, sep).Ok? ==>
      IsLastTwo(record, sep, LastTwo(record, sep).value.ra, LastTwo(record, sep).value.dec)
  {
    SplitsIffContains(record, sep);
    if |Split(record, sep)| >= 2 {
      LastTwoFields(record, sep);
    }
  }

  /** Record `i` is the first of `rs` without a comma. */
  predicate FirstFailure(rs: seq<Entry>, i: nat)
  {
    i < |rs| && LastTwo(rs[i].value, ",").Err? &&
    forall j :: 0 <= j < i ==> LastTwo(rs[j].value, ",").Ok?
  }

  /** The positions of the kept records, or the error of the first one that
      has no comma. */
  function CoordsOf(rs: seq<Entry>): (r: Loaded<seq<Coord>>)
    ensures r.Ok? ==> |r.value| == |rs|
    ensures r.Ok? ==> forall i :: 0 <= i < |rs| ==> LastTwo(rs[i].value, ",") == Ok(r.value[i])
    ensures r.Err? ==> exists i: nat :: FirstFailure(rs, i) && LastTwo(rs[i].value, ",") == Err(r.error)
    decreases |rs|
  {
    if rs == [] then Ok([])
    else
      var init := rs[..|rs| - 1];
      var last := rs[|rs| - 1];
      assert forall i :: 0 <= i < |init| ==> init[i] == rs[i];
      match CoordsOf(init)
      case Err(e) =>
        assert forall i: nat :: FirstFailure(init, i) ==> FirstFailure(rs, i);
        Err(e)
      case Ok(cs) =>
        match LastTwo(last.value, ",")
        case Err(e) =>
          assert FirstFailure(rs, |rs| - 1);
          Err(e)
        case Ok(c) => Ok(cs + [c])
  }

  /** Python's `xs[:-1]`, which is empty for an empty list. */
  function DropLast<T>(xs: seq<T>): (r: seq<T>)
    ensures |r| == if xs == [] then 0 else |xs| - 1
    ensures r <= xs
  {
    if xs == [] then [] else xs[..|xs| - 1]
  }

  /** What `get_coherent_beam_coords` returns for a metadata record. */
  function CatalogueOf(meta: Meta): (r: Loaded<seq<Coord>>)
  {
    match meta.beams
    case None => Err(MissingKey("beams"))
    case Some(beams) =>
      match Scan(SortEntries(beams))
      case Err(e) => Err(e)
      case Ok(cs) => Ok(DropLast(cs))
  }

  function Zip(ras: seq<string>, decs: seq<string>): (cs: seq<Coord>)
    requires |ras| == |decs|
    ensures |cs| == |ras|
  {
    seq(|ras|, k requires 0 <= k < |ras| => Coord(ras[k], decs[k]))
  }

  lemma ZipSnoc(ras: seq<string>, decs: seq<string>, ra: string, dec: string)
    requires |ras| == |decs|
    ensures Zip(ras + [ra], decs + [dec]) == Zip(ras, decs) + [Coord(ra, dec)]
  {
  }

  /** One turn of the catalogue loop on record `e`: nothing more once an error
      has occurred, skip an `unset` record, otherwise append its last two
      comma-separated fields or fail. */
  function ScanNext(acc: Loaded<seq<Coord>>, e: Entry): (r: Loaded<seq<Coord>>)
  {
    match acc
    case Err(_) => acc
    case Ok(cs) =>
      if IsUnset(e) then acc
      else match LastTwo(e.value, ",")
      case Err(err) => Err(err)
      case Ok(c) => Ok(cs + [c])
  }

  /** The catalogue loop as a function: visit the sorted records in order,
      skip the `unset` ones and stop at the first kept record without a comma. */
  function Scan(s: seq<Entry>): (r: Loaded<seq<Coord>>)
    decreases |s|
  {
    if s == [] then Ok([]) else ScanNext(Scan(s[..|s| - 1]), s[|s| - 1])
  }

  lemma ScanStep(s: seq<Entry>, i: nat)
    requires i < |s|
    ensures Scan(s[..i + 1]) == ScanNext(Scan(s[..i]), s[i])
  {
    assert s[..i + 1][..i] == s[..i];
  }

  /** The loop's three turns, each as the scan of one more record. */
  lemma ScanSkips(s: seq<Entry>, i: nat, ras: seq<string>, decs: seq<string>)
    requires i < |s| && |ras| == |decs| && Scan(s[..i]) == Ok(Zip(ras, decs))
    requires Contains(s[i].value, "unset")
    ensures Scan(s[..i + 1]) == Ok(Zip(ras, decs))
  {
    ScanStep(s, i);
  }

  lemma ScanAppends(s: seq<Entry>, i: nat, ras: seq<string>, decs: seq<string>, fields: seq<string>)
    requires i < |s| && |ras| == |decs| && Scan(s[..i]) == Ok(Zip(ras, decs))
    requires !Contains(s[i].value, "unset")
    requires fields == Split(s[i].value, ",") && |fields| >= 2
    ensures Scan(s[..i + 1]) == Ok(Zip(ras + [fields[|fields| - 2]], decs + [fields[|fields| - 1]]))
  {
    ScanStep(s, i);
    ZipSnoc(ras, decs, fields[|fields| - 2], fields[|fields| - 1]);
  }

  lemma ScanFails(s: seq<Entry>, i: nat, ras: seq<string>, decs: seq<string>)
    requires i < |s| && |ras| == |decs| && Scan(s[..i]) == Ok(Zip(ras, decs))
    requires !Contains(s[i].value, "unset") && |Split(s[i].value, ",")| < 2
    ensures Scan(s) == Err(MalformedRecord(s[i].value))
  {
    ScanStep(s, i);
    ScanErrorSticks(s, i + 1);
  }

  /** Once a prefix has failed, the whole scan fails with the same error. */
  lemma {:induction false} ScanErrorSticks(s: seq<Entry>, i: nat)
    requires i <= |s| && Scan(s[..i]).Err?
    ensures Scan(s) == Scan(s[..i])
    decreases |s| - i
  {
    if i < |s| {
      ScanStep(s, i);
      ScanErrorSticks(s, i + 1);
    } else {
      assert s[..i] == s;
    }
  }

  /** The loop parses exactly the kept records: scanning is filtering, then
      parsing each survivor. */
  lemma {:induction false} ScanIsParseOfRetained(s: seq<Entry>)
    ensures Scan(s) == CoordsOf(Retained(s))
    decreases |s|
  {
    if s != [] {
      var init := s[..|s| - 1];
      var last := s[|s| - 1];
      ScanIsParseOfRetained(init);
      var r0 := Retained(init);
      if !IsUnset(last) {
        var r := r0 + [last];
        assert Retained(s) == r;
        assert r[..|r| - 1] == r0;
      }
    }
  }

  /** `get_coherent_beam_coords`: visit the records in sorted order, skip the
      `unset` ones, append the last two comma-separated fields of each other
      record to the right-ascension and declination lists, and return the
      paired positions without the last one. */
  method CoherentBeamCoords(meta: Meta) returns (r: Loaded<seq<Coord>>)
    ensures r == CatalogueOf(meta)
  {
    if meta.beams.None? {
      return Err(MissingKey("beams"));
    }
    var sorted := SortEntries(meta.beams.value);
    var ras: seq<string> := [];
    var decs: seq<string> := [];
    var i := 0;
    while i < |sorted|
      invariant 0 <= i <= |sorted|
      invariant |ras| == |decs|
      invariant Scan(sorted[..i]) == Ok(Zip(ras, decs))
    {
      var v := sorted[i].value;
      if Contains(v, "unset") {
        ScanSkips(sorted, i, ras, decs);
        i := i + 1;
        continue;
      }
      var fields := Split(v, ",");
      if |fields| < 2 {
        ScanFails(sorted, i, ras, decs);
        return Err(MalformedRecord(v));
      }
      ScanAppends(sorted, i, ras, decs, fields);
      ras := ras + [fields[|fields| - 2]];
      decs := decs + [fields[|fields| - 1]];
      i := i + 1;
    }
    assert sorted[..i] == sorted;
    r := Ok(DropLast(Zip(ras, decs)));
  }

  /** `get_boresight_coords`: the last two comma-separated fields of the
      top-level `boresight` record. */
  function BoresightCoords(meta: Meta): (r: Loaded<Coord>)
    ensures meta.boresight.None? ==> r == Err(MissingKey("boresight"))
    ensures meta.boresight.Some? ==>
      (r.Err? <==> !Contains(meta.boresight.value, ",")) &&
      (r.Ok? ==> IsLastTwo(meta.boresight.value, ",", r.value.ra, r.value.dec))
  {
    match meta.boresight
    case None => Err(MissingKey("boresight"))
    case Some(b) =>
      LastTwoMeaning(b, ",");
      LastTwo(b, ",")
  }

  /** The value stored under `key` in the raw `beams` object. */
  function Lookup(beams: BeamMap, key: string): (r: Option<string>)
    ensures r.Some? <==> exists e :: e in beams && e.key == key
    ensures r.Some? ==> Entry(key, r.value) in beams
    decreases |beams|
  {
    if beams == [] then None
    else if beams[0].key == key then Some(beams[0].value)
    else
      assert DistinctKeys(beams[1..]);
      Lookup(beams[1..], key)
  }

  /** `get_reference_beam_coords`: the record stored under `key` in the raw
      `beams` object (unset and last records included), split on comma-space
      rather than comma. */
  function ReferenceBeamCoords(meta: Meta, key: string): (r: Loaded<Coord>)
    ensures meta.beams.None? ==> r == Err(MissingKey("beams"))
    ensures meta.beams.Some? && (forall e :: e in meta.beams.value ==> e.key != key) ==>
      r == Err(MissingKey(key))
    ensures meta.beams.Some? && Lookup(meta.beams.value, key).Some? ==>
      var v := Lookup(meta.beams.value, key).value;
      (r.Ok? <==> Contains(v, ", ")) &&
      (r.Err? ==> r.error == MalformedRecord(v)) &&
      (r.Ok? ==> IsLastTwo(v, ", ", r.value.ra, r.value.dec))
    ensures r.Ok? ==> exists e :: e in meta.beams.value && e.key == key && IsLastTwo(e.value, ", ", r.value.ra, r.value.dec)
  {
    match meta.beams
    case None => Err(MissingKey("beams"))
    case Some(beams) =>
      match Lookup(beams, key)
      case None => Err(MissingKey(key))
      case Some(v) =>
        LastTwoMeaning(v, ", ");
        LastTwo(v, ", ")
  }

  /** In a JSON object every `(key, value)` pair occurs once. */
  lemma {:induction false} DistinctKeysOnce(s: seq<Entry>, x: Entry)
    requires DistinctKeys(s)
    ensures multiset(s)[x] <= 1
    decreases |s|
  {
    if s != [] {
      var init := s[..|s| - 1];
      assert s == init + [s[|s| - 1]];
      DistinctKeysOnce(init, x);
    }
  }

  lemma TwiceCountsTwice<T>(s: seq<T>, i: nat, j: nat)
    requires i < j < |s| && s[i] == s[j]
    ensures multiset(s)[s[i]] >= 2
  {
    assert s == s[..j] + [s[j]] + s[j + 1..];
    assert s[..j][i] == s[i];
  }

  /** The records kept for the catalogue are exactly the non-`unset` pairs of
      the `beams` object, each key still with its own value, in strictly
      ascending key order. */
  lemma RetainedRecordsOrdered(beams: BeamMap)
    ensures var rs := RetainedRecords(beams);
            (forall e :: e in rs <==> e in beams && !IsUnset(e)) &&
            (forall i, j :: 0 <= i < j < |rs| ==> StrLe(rs[i].key, rs[j].key) && rs[i].key != rs[j].key)
  {
    var sorted := SortEntries(beams);
    var rs := RetainedRecords(beams);
    forall e ensures e in rs <==> e in beams && !IsUnset(e) {
      assert e in sorted <==> e in multiset(sorted);
      assert e in beams <==> e in multiset(beams);
    }
    RetainedSorted(sorted);
    forall i, j | 0 <= i < j < |rs|
      ensures StrLe(rs[i].key, rs[j].key) && rs[i].key != rs[j].key
    {
      assert EntryLe(rs[i], rs[j]);
      RetainedKeysDiffer(beams, i, j);
    }
  }

  lemma RetainedKeysDiffer(beams: BeamMap, i: nat, j: nat)
    requires i < j < |RetainedRecords(beams)|
    ensures RetainedRecords(beams)[i].key != RetainedRecords(beams)[j].key
  {
    var rs := RetainedRecords(beams);
    if rs[i].key == rs[j].key {
      assert rs[i] in rs && rs[j] in rs;
      assert rs[i] in multiset(SortEntries(beams)) && rs[j] in multiset(SortEntries(beams));
      SameKeySameEntry(beams, rs[i], rs[j]);
      TwiceCountsTwice(rs, i, j);
      DistinctKeysOnce(beams, rs[i]);
      assert false;
    }
  }

  lemma SameKeySameEntry(beams: BeamMap, x: Entry, y: Entry)
    requires x in beams && y in beams && x.key == y.key
    ensures x == y
  {
    var p :| 0 <= p < |beams| && beams[p] == x;
    var q :| 0 <= q < |beams| && beams[q] == y;
  }

  /** A loaded catalogue has one position per kept record except the last:
      position `i` holds the last two comma-separated fields of kept record
      `i`, and the last kept record is left out whatever it holds. */
  lemma CatalogueContents(meta: Meta)
    requires CatalogueOf(meta).Ok?
    ensures meta.beams.Some?
    ensures var rs := RetainedRecords(meta.beams.value);
            var cs := CatalogueOf(meta).value;
            |cs| == (if rs == [] then 0 else |rs| - 1) &&
            (forall i :: 0 <= i < |cs| ==> IsLastTwo(rs[i].value, ",", cs[i].ra, cs[i].dec))
  {
    var rs := RetainedRecords(meta.beams.value);
    ScanIsParseOfRetained(SortEntries(meta.beams.value));
    var coords := CoordsOf(rs).value;
    var cs := CatalogueOf(meta).value;
    assert cs == DropLast(coords);
    forall i | 0 <= i < |cs| ensures IsLastTwo(rs[i].value, ",", cs[i].ra, cs[i].dec) {
      assert cs[i] == coords[i];
      LastTwoMeaning(rs[i].value, ",");
    }
  }

  /** Parsing the kept records fails exactly when one of them has no comma. */
  lemma CoordsOfFails(rs: seq<Entry>)
    ensures CoordsOf(rs).Err? <==> exists e :: e in rs && !Contains(e.value, ",")
  {
    if CoordsOf(rs).Err? {
      var i: nat :| FirstFailure(rs, i) && LastTwo(rs[i].value, ",") == Err(CoordsOf(rs).error);
      LastTwoMeaning(rs[i].value, ",");
      assert rs[i] in rs;
    } else {
      forall e | e in rs ensures Contains(e.value, ",") {
        var i :| 0 <= i < |rs| && rs[i] == e;
        LastTwoMeaning(rs[i].value, ",");
      }
    }
  }

  /** Loading fails exactly when the `beams` key is missing or some kept
      record has no comma; this includes the last kept record, which is parsed
      before it is dropped. */
  lemma CatalogueFails(meta: Meta)
    ensures CatalogueOf(meta).Err? <==>
      meta.beams.None? ||
      exists e :: e in RetainedRecords(meta.beams.value) && !Contains(e.value, ",")
  {
    if meta.beams.Some? {
      ScanIsParseOfRetained(SortEntries(meta.beams.value));
      CoordsOfFails(RetainedRecords(meta.beams.value));
    }
  }

  /** The separation of every catalogue position from a reference position,
      in catalogue order (`reference.separation(catalogue)`); the separation
      itself is a given function. */
  function Separations(reference: Coord, catalogue: seq<Coord>, sep: (Coord, Coord) -> real): (ds: seq<real>)
    ensures |ds| == |catalogue|
    ensures forall i :: 0 <= i < |catalogue| ==> ds[i] == sep(reference, catalogue[i])
  {
    seq(|catalogue|, i requires 0 <= i < |catalogue| => sep(reference, catalogue[i]))
  }

  /** The positions `0, 1, ..., n - 1` of a catalogue of `n` beams. */
  function Positions(n: nat): (s: seq<nat>)
    ensures |s| == n && forall k :: 0 <= k < n ==> s[k] == k
  {
    seq(n, k requires 0 <= k => k)
  }
}
