/** The Python `str` operations the beam scripts rely on: the ordering that
    `sorted` uses on keys and values, the substring test `sub in s`, and
    `s.split(sep)` for a non-empty separator. */
module Text {

  /** Python's `a <= b` on strings: lexicographic by code point, and a proper
      prefix orders before the longer string. */
  predicate StrLe(a: string, b: string)
    decreases |a|
  {
    a == [] || (b != [] && (a[0] < b[0] || (a[0] == b[0] && StrLe(a[1..], b[1..]))))
  }

  lemma {:induction false} StrLeAntisym(a: string, b: string)
    requires StrLe(a, b) && StrLe(b, a)
    ensures a == b
    decreases |a|
  {
    if a != [] && b != [] {
      assert a[0] == b[0];
      StrLeAntisym(a[1..], b[1..]);
      assert a == [a[0]] + a[1..] && b == [b[0]] + b[1..];
    }
  }

  lemma {:induction false} StrLeTrans(a: string, b: string, c: string)
    requires StrLe(a, b) && StrLe(b, c)
    ensures StrLe(a, c)
    decreases |a|
  {
    if a != [] && b != [] && c != [] && a[0] == b[0] && b[0] == c[0] {
      StrLeTrans(a[1..], b[1..], c[1..]);
    }
  }

  lemma {:induction false} StrLeTotal(a: string, b: string)
    ensures StrLe(a, b) || StrLe(b, a)
    decreases |a|
  {
    if a != [] && b != [] && a[0] == b[0] {
      StrLeTotal(a[1..], b[1..]);
    }
  }

  /** `sub` occurs in `s` starting at position `i`. */
  predicate OccursAt(s: string, sub: string, i: nat)
  {
    i + |sub| <= |s| && s[i..i + |sub|] == sub
  }

  /** Python's `sub in s`. */
  predicate Contains(s: string, sub: string)
    decreases |s|
  {
    (|sub| <= |s| && s[..|sub|] == sub) || (s != [] && Contains(s[1..], sub))
  }

  /** The recursive substring test finds exactly the positions where `sub` occurs. */
  lemma {:induction false} ContainsIffOccurs(s: string, sub: string)
    ensures Contains(s, sub) <==> exists i: nat :: OccursAt(s, sub, i)
    decreases |s|
  {
    if |sub| <= |s| && s[..|sub|] == sub {
      assert OccursAt(s, sub, 0);
    } else if s != [] {
      ContainsIffOccurs(s[1..], sub);
      if Contains(s[1..], sub) {
        var i: nat :| OccursAt(s[1..], sub, i);
        assert s[1..][i..i + |sub|] == s[i + 1..i + 1 + |sub|];
        assert OccursAt(s, sub, i + 1);
      }
      if exists i: nat :: OccursAt(s, sub, i) {
        var i: nat :| OccursAt(s, sub, i);
        assert i != 0;
        assert s[1..][i - 1..i - 1 + |sub|] == s[i..i + |sub|];
        assert OccursAt(s[1..], sub, i - 1);
      }
    }
  }

  /** Python's `s.split(sep)` for a non-empty separator: the string is cut at
      each leftmost, non-overlapping occurrence of `sep`. There is always at
      least one field, and the first field is a prefix of `s`. */
  function Split(s: string, sep: string): (r: seq<string>)
    requires sep != []
    ensures |r| >= 1
    ensures r[0] <= s
    decreases |s|
  {
    if |s| < |sep| then [s]
    else if s[..|sep|] == sep then [""] + Split(s[|sep|..], sep)
    else
      var rest := Split(s[1..], sep);
      [[s[0]] + rest[0]] + rest[1..]
  }

  /** Python's `sep.join(fields)`. */
  function Join(fields: seq<string>, sep: string): (s: string)
    requires |fields| >= 1
    decreases |fields|
  {
    if |fields| == 1 then fields[0] else fields[0] + sep + Join(fields[1..], sep)
  }

  /** Splitting loses nothing: joining the fields back gives the original string. */
  lemma {:induction false} JoinSplit(s: string, sep: string)
    requires sep != []
    ensures Join(Split(s, sep), sep) == s
    decreases |s|
  {
    if |s| < |sep| {
    } else if s[..|sep|] == sep {
      var t := s[|sep|..];
      var rest := Split(t, sep);
      assert Split(s, sep) == [""] + rest;
      assert Join(rest, sep) == t by { JoinSplit(t, sep); }
      assert Join([""] + rest, sep) == sep + Join(rest, sep) by {
        assert ([""] + rest)[1..] == rest;
      }
      assert s == sep + t;
    } else {
      var rest := Split(s[1..], sep);
      assert Split(s, sep) == [[s[0]] + rest[0]] + rest[1..];
      assert Join(rest, sep) == s[1..] by { JoinSplit(s[1..], sep); }
      JoinCons(s[0], rest, sep);
      assert s == [s[0]] + s[1..];
    }
  }

  /** Prepending a character to the first field prepends it to the join. */
  lemma JoinCons(c: char, fields: seq<string>, sep: string)
    requires |fields| >= 1
    ensures Join([[c] + fields[0]] + fields[1..], sep) == [c] + Join(fields, sep)
  {
    var g := [[c] + fields[0]] + fields[1..];
    if |fields| > 1 {
      assert g[1..] == fields[1..];
    }
  }

  /** No field holds the separator: every occurrence of `sep` was a cut. */
  lemma {:induction false} SplitFieldsFree(s: string, sep: string)
    requires sep != []
    ensures forall f :: f in Split(s, sep) ==> !Contains(f, sep)
    decreases |s|
  {
    var r := Split(s, sep);
    if |s| < |sep| {
      NotContainsShort(s, sep);
    } else if s[..|sep|] == sep {
      SplitFieldsFree(s[|sep|..], sep);
      NotContainsShort("", sep);
      assert r == [""] + Split(s[|sep|..], sep);
    } else {
      var rest := Split(s[1..], sep);
      SplitFieldsFree(s[1..], sep);
      var f0 := [s[0]] + rest[0];
      assert f0[1..] == rest[0];
      assert rest[0] in rest;
      if |sep| <= |f0| {
        assert f0 <= s;
        assert f0[..|sep|] == s[..|sep|];
      }
      assert !Contains(f0, sep);
      assert r == [f0] + rest[1..];
      forall f | f in r ensures !Contains(f, sep) {
        if f != f0 {
          assert f in rest[1..];
        }
      }
    }
  }

  lemma {:induction false} NotContainsShort(s: string, sub: string)
    requires |s| < |sub|
    ensures !Contains(s, sub)
    decreases |s|
  {
    if s != [] { NotContainsShort(s[1..], sub); }
  }

  lemma {:induction false} JoinSnoc(fields: seq<string>, f: string, sep: string)
    requires |fields| >= 1
    ensures Join(fields + [f], sep) == Join(fields, sep) + sep + f
    decreases |fields|
  {
    if |fields| == 1 {
      assert (fields + [f])[1..] == [f];
    } else {
      assert (fields + [f])[1..] == fields[1..] + [f];
      JoinSnoc(fields[1..], f, sep);
    }
  }

  /** A join of at least two fields is the join of all but the last two, a
      separator, then the last two joined (or just the last two when there are
      no others). */
  lemma JoinEndsWithLastTwo(f: seq<string>, sep: string)
    requires |f| >= 2
    ensures Join(f, sep) == (if |f| == 2 then "" else Join(f[..|f| - 2], sep) + sep) + (f[|f| - 2] + sep + f[|f| - 1])
  {
    var n := |f|;
    var a := f[..n - 1];
    assert f == a + [f[n - 1]];
    JoinSnoc(a, f[n - 1], sep);
    if n > 2 {
      JoinLastTwoOfMany(f, sep);
    }
  }

  lemma JoinLastTwoOfMany(f: seq<string>, sep: string)
    requires |f| > 2
    ensures Join(f, sep) == (Join(f[..|f| - 2], sep) + sep) + (f[|f| - 2] + sep + f[|f| - 1])
  {
    var n := |f|;
    assert f == f[..n - 2] + [f[n - 2]] + [f[n - 1]];
    JoinAppendTwo(f[..n - 2], f[n - 2], f[n - 1], sep);
  }

  lemma JoinAppendTwo(b: seq<string>, y: string, z: string, sep: string)
    requires |b| >= 1
    ensures Join(b + [y] + [z], sep) == (Join(b, sep) + sep) + (y + sep + z)
  {
    JoinSnoc(b, y, sep);
    JoinSnoc(b + [y], z, sep);
    ConcatRegroup(Join(b, sep), y, z, sep);
  }

  lemma ConcatRegroup(x: string, y: string, z: string, sep: string)
    ensures (x + sep + y) + sep + z == (x + sep) + (y + sep + z)
  {
  }

  /** `a` and `b` are the last two `sep`-separated fields of `s`: neither holds
      the separator, `s` ends with `a + sep + b`, and what comes before that is
      empty or ends with the separator. */
  predicate IsLastTwo(s: string, sep: string, a: string, b: string)
  {
    !Contains(a, sep) && !Contains(b, sep) &&
    |a + sep + b| <= |s| && s[|s| - |a + sep + b|..] == a + sep + b &&
    var lead := s[..|s| - |a + sep + b|];
    lead == [] || (|sep| <= |lead| && lead[|lead| - |sep|..] == sep)
  }

  /** The last two fields of a split with at least two fields are the last
      two fields in the sense of `IsLastTwo`. */
  lemma LastTwoFields(s: string, sep: string)
    requires sep != [] && |Split(s, sep)| >= 2
    ensures var f := Split(s, sep); IsLastTwo(s, sep, f[|f| - 2], f[|f| - 1])
  {
    var f := Split(s, sep);
    var n := |f|;
    var a, b := f[n - 2], f[n - 1];
    var tail := a + sep + b;
    var lead := if n == 2 then "" else Join(f[..n - 2], sep) + sep;
    assert s == lead + tail by {
      JoinSplit(s, sep);
      JoinEndsWithLastTwo(f, sep);
    }
    assert !Contains(a, sep) && !Contains(b, sep) by {
      SplitFieldsFree(s, sep);
      assert a in f && b in f;
    }
    assert s[..|s| - |tail|] == lead;
    assert s[|s| - |tail|..] == tail;
    assert lead == [] || lead[|lead| - |sep|..] == sep;
  }

  /** A string splits into two or more fields exactly when it holds the separator. */
  lemma {:induction false} SplitsIffContains(s: string, sep: string)
    requires sep != []
    ensures |Split(s, sep)| >= 2 <==> Contains(s, sep)
  {
    var f := Split(s, sep);
    JoinSplit(s, sep);
    if |f| == 1 {
      SplitFieldsFree(s, sep);
      assert f[0] in f;
    } else {
      assert s == f[0] + sep + Join(f[1..], sep);
      assert s[|f[0]|..|f[0]| + |sep|] == sep;
      assert OccursAt(s, sep, |f[0]|);
      ContainsIffOccurs(s, sep);
    }
  }
}
