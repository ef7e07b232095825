/** The radius report of `beam_strategy.py`: which coherent beams lie strictly
    inside each of a globular cluster's four structural radii (and optionally a
    radius the user gives), measured from the boresight. The radii arrive
    already converted to degrees; the separation of two positions is a given
    function. */
module BeamStrategy {
  import opened Wrappers
  import opened Tokens
  import opened BeamCatalogue

  /** The cluster's core, half-light, half-mass and tidal radii, in degrees. */
  datatype Radii = Radii(core: real, halfLight: real, halfMass: real, tidal: real)

  /** The `--user_radius` option: the literal `default`, or a radius in degrees. */
  datatype RadiusOption = Default | Degrees(deg: real)

  /** The beam-index lists `rc_beams`, `r_hl_beams`, `r_hm_beams`, `r_t_beams`. */
  datatype Buckets = Buckets(core: seq<nat>, halfLight: seq<nat>, halfMass: seq<nat>, tidal: seq<nat>)

  /** The printed report: token lists in the order the lines are printed, and
      the user-radius line when one was asked for. */
  datatype Report = Report(
    core: seq<string>, halfMass: seq<string>, halfLight: seq<string>, tidal: seq<string>,
    user: Option<seq<string>>)

  /** The beam indices the bucket loop collects for `radius`. */
  function Within(seps: seq<real>, radius: real): (bucket: seq<nat>)
    decreases |seps|
  {
    if seps == [] then []
    else
      var n := |seps| - 1;
      if seps[n] < radius then Within(seps[..n], radius) + [n] else Within(seps[..n], radius)
  }

  /** A bucket holds exactly the indices of the beams whose separation is
      strictly less than its radius, each once, in increasing index order. */
  lemma {:induction false} WithinMeaning(seps: seq<real>, radius: real)
    ensures forall i: nat :: i in Within(seps, radius) <==> i < |seps| && seps[i] < radius
    ensures forall j, k :: 0 <= j < k < |Within(seps, radius)| ==> Within(seps, radius)[j] < Within(seps, radius)[k]
    decreases |seps|
  {
    if seps != [] {
      var n := |seps| - 1;
      var prev := Within(seps[..n], radius);
      WithinMeaning(seps[..n], radius);
      assert forall i :: 0 <= i < n ==> seps[..n][i] == seps[i];
      assert forall j :: 0 <= j < |prev| ==> prev[j] in prev && prev[j] < n;
    }
  }

  /** The radii are tested independently, and a larger radius keeps every beam
      a smaller one keeps (core within half-light within half-mass within
      tidal, when the radii are so ordered). */
  lemma {:induction false} WithinNested(seps: seq<real>, r1: real, r2: real)
    requires r1 <= r2
    ensures forall i :: i in Within(seps, r1) ==> i in Within(seps, r2)
  {
    WithinMeaning(seps, r1);
    WithinMeaning(seps, r2);
  }

  /** A radius larger than every separation keeps every beam, in order. */
  lemma {:induction false} WithinEverything(seps: seq<real>, radius: real)
    requires forall i :: 0 <= i < |seps| ==> seps[i] < radius
    ensures Within(seps, radius) == Positions(|seps|)
    decreases |seps|
  {
    if seps != [] {
      var n := |seps| - 1;
      WithinEverything(seps[..n], radius);
      assert Positions(n) + [n] == Positions(n + 1);
    }
  }

  /** The test is strict: a beam exactly on the radius is left out, so with
      non-negative separations a zero radius keeps no beam. */
  lemma WithinStrict(seps: seq<real>, radius: real)
    requires forall i :: 0 <= i < |seps| ==> seps[i] >= 0.0
    ensures forall i :: 0 <= i < |seps| && seps[i] == radius ==> i !in Within(seps, radius)
    ensures radius <= 0.0 ==> Within(seps, radius) == []
  {
    WithinMeaning(seps, radius);
    if radius <= 0.0 && Within(seps, radius) != [] {
      assert Within(seps, radius)[0] in Within(seps, radius);
    }
  }

  /** The first loop of `derive_values`: one pass over the catalogue that
      computes each beam's separation from the boresight and appends its index
      to every bucket whose radius the separation is strictly below. */
  method ClassifyStandard(catalogue: seq<Coord>, boresight: Coord, sep: (Coord, Coord) -> real, radii: Radii)
    returns (b: Buckets)
    ensures var seps := Separations(boresight, catalogue, sep);
      b == Buckets(Within(seps, radii.core), Within(seps, radii.halfLight),
                   Within(seps, radii.halfMass), Within(seps, radii.tidal))
  {
    ghost var seps := Separations(boresight, catalogue, sep);
    var rc: seq<nat> := [];
    var rhl: seq<nat> := [];
    var rhm: seq<nat> := [];
    var rt: seq<nat> := [];
    for i := 0 to |catalogue|
      invariant rc == Within(seps[..i], radii.core)
      invariant rhl == Within(seps[..i], radii.halfLight)
      invariant rhm == Within(seps[..i], radii.halfMass)
      invariant rt == Within(seps[..i], radii.tidal)
    {
      var d := sep(boresight, catalogue[i]);
      assert seps[..i + 1][..i] == seps[..i];
      assert seps[..i + 1][i] == d;
      if d < radii.core { rc := rc + [i]; }
      if d < radii.halfLight { rhl := rhl + [i]; }
      if d < radii.halfMass { rhm := rhm + [i]; }
      if d < radii.tidal { rt := rt + [i]; }
    }
    assert seps[..|catalogue|] == seps;
    b := Buckets(rc, rhl, rhm, rt);
  }

  /** The second loop of `derive_values`, run for a user radius: the same
      strict test against that one radius. */
  method ClassifyUser(catalogue: seq<Coord>, boresight: Coord, sep: (Coord, Coord) -> real, radius: real)
    returns (beams: seq<nat>)
    ensures beams == Within(Separations(boresight, catalogue, sep), radius)
  {
    ghost var seps := Separations(boresight, catalogue, sep);
    beams := [];
    for i := 0 to |catalogue|
      invariant beams == Within(seps[..i], radius)
    {
      var d := sep(boresight, catalogue[i]);
      assert seps[..i + 1][..i] == seps[..i];
      assert seps[..i + 1][i] == d;
      if d < radius { beams := beams + [i]; }
    }
    assert seps[..|catalogue|] == seps;
  }

  /** The token of beam `i` is printed on a radius line exactly when beam `i`
      is in the catalogue and its separation is strictly below that radius. */
  lemma ReportLineMembership(seps: seq<real>, radius: real, i: nat)
    ensures Token(i) in TokenList(Within(seps, radius)) <==> i < |seps| && seps[i] < radius
    ensures forall k :: 0 <= k < |Within(seps, radius)| ==>
      TokenIndex(TokenList(Within(seps, radius))[k]) == Some(Within(seps, radius)[k])
  {
    TokenListFaithful(Within(seps, radius), i);
    WithinMeaning(seps, radius);
  }

  /** `derive_values` from the catalogue load on: load the catalogue, then the
      boresight, then fill the four buckets, format them as tokens, and, unless
      the radius option is `default`, fill and format the user bucket. */
  method DeriveValues(meta: Meta, radii: Radii, user: RadiusOption, sep: (Coord, Coord) -> real)
    returns (r: Result<Report, LoadError>)
    ensures CatalogueOf(meta).Err? ==> r == Err(CatalogueOf(meta).error)
    ensures CatalogueOf(meta).Ok? && BoresightCoords(meta).Err? ==> r == Err(BoresightCoords(meta).error)
    ensures r.Ok? <==> CatalogueOf(meta).Ok? && BoresightCoords(meta).Ok?
    ensures r.Ok? ==>
      var seps := Separations(BoresightCoords(meta).value, CatalogueOf(meta).value, sep);
      r.value == Report(
        TokenList(Within(seps, radii.core)), TokenList(Within(seps, radii.halfMass)),
        TokenList(Within(seps, radii.halfLight)), TokenList(Within(seps, radii.tidal)),
        if user.Default? then None else Some(TokenList(Within(seps, user.deg))))
  {
    var loaded := CoherentBeamCoords(meta);
    if loaded.Err? {
      return Err(loaded.error);
    }
    var catalogue := loaded.value;
    var bore := BoresightCoords(meta);
    if bore.Err? {
      return Err(bore.error);
    }
    var b := ClassifyStandard(catalogue, bore.value, sep, radii);
    var userLine: Option<seq<string>> := None;
    if user.Degrees? {
      var ub := ClassifyUser(catalogue, bore.value, sep, user.deg);
      userLine := Some(TokenList(ub));
    }
    r := Ok(Report(TokenList(b.core), TokenList(b.halfMass), TokenList(b.halfLight), TokenList(b.tidal), userLine));
  }
}
