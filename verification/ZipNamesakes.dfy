/** The chunks of one name in the lists of `imgdiff` in zip mode, and when the edits use up all sources of a name. */
module ZipNamesakes {
  import opened Bytes
  import opened ImageChunks
  import opened ImageEdit

  predicate Carries(c: Chunk, name: string) { c.kind == Deflate && c.name == Some(name) }

  predicate HasSource(ss: seq<Chunk>, name: string) { exists k :: 0 <= k < |ss| && Carries(ss[k], name) }

  /** Where the first deflate chunk of that name stands, or -1. */
  function FirstAt(ss: seq<Chunk>, name: string): (k: int)
    ensures -1 <= k < |ss| && (k >= 0 <==> HasSource(ss, name))
    ensures k >= 0 ==> Carries(ss[k], name) && forall j :: 0 <= j < k ==> !Carries(ss[j], name)
  {
    if ss == [] then -1
    else if Carries(ss[0], name) then 0
    else
      var k := FirstAt(ss[1..], name);
      assert HasSource(ss, name) ==> HasSource(ss[1..], name) by {
        if k0 :| 0 <= k0 < |ss| && Carries(ss[k0], name) { assert Carries(ss[1..][k0 - 1], name); }
      }
      if k < 0 then -1 else k + 1
  }

  /** The deflate chunks of that name, in order. */
  function Namesakes(cs: seq<Chunk>, name: string): (r: seq<Chunk>) {
    if cs == [] then [] else (if Carries(cs[0], name) then [cs[0]] else []) + Namesakes(cs[1..], name)
  }

  lemma NamesakesCons(c: Chunk, rest: seq<Chunk>, name: string)
    ensures Namesakes([c] + rest, name) == (if Carries(c, name) then [c] else []) + Namesakes(rest, name)
  {
    assert ([c] + rest)[1..] == rest;
  }

  lemma NamesakesFrom(cs: seq<Chunk>, i: nat, name: string)
    requires i < |cs|
    ensures var here, rest := Namesakes(cs[i..], name), Namesakes(cs[i + 1..], name);
            if Carries(cs[i], name) then here != [] && here[0] == cs[i] && here[1..] == rest else here == rest
  {
    assert cs[i..][0] == cs[i] && cs[i..][1..] == cs[i + 1..];
  }

  lemma {:induction false} NamesakesFirst(cs: seq<Chunk>, name: string)
    ensures Namesakes(cs, name) == [] <==> FirstAt(cs, name) < 0
    ensures FirstAt(cs, name) >= 0 ==> Namesakes(cs, name)[0] == cs[FirstAt(cs, name)]
  {
    if cs != [] && !Carries(cs[0], name) { NamesakesFirst(cs[1..], name); }
  }

  /** The source list after chunk `j` was changed, or as it was. */
  function Changed(ss: seq<Chunk>, j: int): (r: seq<Chunk>)
    requires j < |ss|
    ensures |r| == |ss|
  {
    if j < 0 then ss else ss[j := ToNormal(ss[j])]
  }

  /** Changing the first chunk of one name takes it from the chunks of that name and leaves those of the others. */
  lemma {:induction false} NamesakesChanged(ss: seq<Chunk>, j: int, name: string, other: string)
    requires j == FirstAt(ss, name)
    ensures Namesakes(Changed(ss, j), name) == if Namesakes(ss, name) == [] then [] else Namesakes(ss, name)[1..]
    ensures other != name ==> Namesakes(Changed(ss, j), other) == Namesakes(ss, other)
  {
    NamesakesFirst(ss, name);
    if j >= 0 {
      var c, rest := ss[0], ss[1..];
      assert ss == [c] + rest;
      if j == 0 {
        ChangedFirst(c, ToNormal(c), rest, name, other);
        assert Changed(ss, j) == [ToNormal(c)] + rest;
      } else {
        NamesakesFirst(rest, name);
        NamesakesChanged(rest, j - 1, name, other);
        ChangedLater(c, rest, Changed(rest, j - 1), name, other);
        assert Changed(ss, j) == [c] + Changed(rest, j - 1);
      }
    }
  }

  lemma ChangedFirst(c: Chunk, d: Chunk, rest: seq<Chunk>, name: string, other: string)
    requires Carries(c, name) && d.kind == Normal
    ensures Namesakes([d] + rest, name) == Namesakes([c] + rest, name)[1..]
    ensures other != name ==> Namesakes([d] + rest, other) == Namesakes([c] + rest, other)
  {
    NamesakesCons(c, rest, name);
    NamesakesCons(d, rest, name);
    NamesakesCons(c, rest, other);
    NamesakesCons(d, rest, other);
  }

  lemma ChangedLater(c: Chunk, rest: seq<Chunk>, rest2: seq<Chunk>, name: string, other: string)
    requires !Carries(c, name) && Namesakes(rest, name) != [] && Namesakes(rest2, name) == Namesakes(rest, name)[1..]
    requires other != name ==> Namesakes(rest2, other) == Namesakes(rest, other)
    ensures Namesakes([c] + rest, name) != [] && Namesakes([c] + rest2, name) == Namesakes([c] + rest, name)[1..]
    ensures other != name ==> Namesakes([c] + rest2, other) == Namesakes([c] + rest, other)
  {
    NamesakesCons(c, rest, name);
    NamesakesCons(c, rest2, name);
    NamesakesCons(c, rest, other);
    NamesakesCons(c, rest2, other);
  }

  // What the edits leave of the chunks of one name

  /** Whether a target chunk stays deflated next to a source chunk. */
  type Test = (Chunk, Chunk) -> bool

  /** One pointer moves through the sources: a target chunk that does not stay takes the source along. */
  function Unused(stays: Test, ts: seq<Chunk>, ss: seq<Chunk>): (r: seq<Chunk>)
    decreases |ts|
  {
    if ts == [] || ss == [] then ss
    else Unused(stays, ts[1..], if stays(ts[0], ss[0]) then ss else ss[1..])
  }

  /** Some target chunk stays. */
  predicate Keeps(stays: Test, ts: seq<Chunk>, ss: seq<Chunk>)
    decreases |ts|
  {
    ts != [] && ss != [] && (stays(ts[0], ss[0]) || Keeps(stays, ts[1..], ss[1..]))
  }

  /** The target chunks from `lo` up to `hi` all stay next to the source. */
  predicate AllStay(stays: Test, ts: seq<Chunk>, s: Chunk, lo: nat, hi: nat) {
    hi <= |ts| && forall i :: lo <= i < hi ==> stays(ts[i], s)
  }

  /** Where the target chunks start that come to source `q`. */
  function From(drops: seq<nat>, q: nat): (i: nat)
    requires q < |drops|
  {
    if q == 0 then 0 else drops[q - 1] + 1
  }

  /** Source `q` is used up by target chunk `drops[q]`, after all that came to it before stayed. */
  predicate UsedBy(stays: Test, ts: seq<Chunk>, ss: seq<Chunk>, drops: seq<nat>, q: nat)
    requires q < |ss| == |drops|
  {
    && From(drops, q) <= drops[q] < |ts| && !stays(ts[drops[q]], ss[q])
    && AllStay(stays, ts, ss[q], From(drops, q), drops[q])
  }

  /** The sources are all used up, one after the other. */
  predicate UsesUp(stays: Test, ts: seq<Chunk>, ss: seq<Chunk>, drops: seq<nat>) {
    |drops| == |ss| && forall q :: 0 <= q < |ss| ==> UsedBy(stays, ts, ss, drops, q)
  }

  /**
   Every source of the name is used up by a target chunk that does not stay, and there were more target chunks before
   the last of them than that takes: one that stayed has lost its source.
   */
  ghost predicate LosesLast(stays: Test, ts: seq<Chunk>, ss: seq<Chunk>) {
    ss != [] && exists drops :: UsesUp(stays, ts, ss, drops) && drops[|ss| - 1] >= |ss|
  }

  function Later(drops: seq<nat>): (r: seq<nat>)
    ensures |r| == |drops| && forall q :: 0 <= q < |r| ==> r[q] == drops[q] + 1
  {
    seq(|drops|, q requires 0 <= q < |drops| => drops[q] + 1)
  }

  function Sooner(drops: seq<nat>): (r: seq<nat>)
    requires forall q :: 0 <= q < |drops| ==> drops[q] > 0
    ensures |r| == |drops| && forall q :: 0 <= q < |r| ==> r[q] == drops[q] - 1
  {
    seq(|drops|, q requires 0 <= q < |drops| => drops[q] - 1)
  }

  lemma {:induction false} DropsAscend(stays: Test, ts: seq<Chunk>, ss: seq<Chunk>, drops: seq<nat>, q: nat)
    requires UsesUp(stays, ts, ss, drops) && q < |ss|
    ensures drops[q] >= drops[0] + q
  {
    if q > 0 {
      assert UsedBy(stays, ts, ss, drops, q);
      DropsAscend(stays, ts, ss, drops, q - 1);
    }
  }

  /** A target chunk in front that stays. */
  lemma UsesUpKept(stays: Test, ts: seq<Chunk>, ss: seq<Chunk>, drops: seq<nat>)
    requires ts != [] && ss != [] && stays(ts[0], ss[0]) && UsesUp(stays, ts[1..], ss, drops)
    ensures UsesUp(stays, ts, ss, Later(drops))
  {
    var d, rest := Later(drops), ts[1..];
    forall q | 0 <= q < |ss| ensures UsedBy(stays, ts, ss, d, q) {
      assert UsedBy(stays, rest, ss, drops, q) && rest[drops[q]] == ts[d[q]];
      forall i | From(d, q) <= i < d[q] ensures stays(ts[i], ss[q]) { if i > 0 { assert ts[i] == rest[i - 1]; } }
    }
  }

  lemma UsesUpOfKept(stays: Test, ts: seq<Chunk>, ss: seq<Chunk>, drops: seq<nat>)
    requires ts != [] && ss != [] && stays(ts[0], ss[0]) && UsesUp(stays, ts, ss, drops)
    ensures (forall q :: 0 <= q < |drops| ==> drops[q] > 0) && UsesUp(stays, ts[1..], ss, Sooner(drops))
  {
    assert UsedBy(stays, ts, ss, drops, 0);
    forall q | 0 <= q < |drops| ensures drops[q] > 0 { DropsAscend(stays, ts, ss, drops, q); }
    var d, rest := Sooner(drops), ts[1..];
    forall q | 0 <= q < |ss| ensures UsedBy(stays, rest, ss, d, q) {
      assert UsedBy(stays, ts, ss, drops, q) && rest[d[q]] == ts[drops[q]];
      forall i | From(d, q) <= i < d[q] ensures stays(rest[i], ss[q]) { assert rest[i] == ts[i + 1]; }
    }
  }

  /** A target chunk in front that does not stay takes the first source. */
  lemma UsesUpDropped(stays: Test, ts: seq<Chunk>, ss: seq<Chunk>, drops: seq<nat>)
    requires ts != [] && ss != [] && !stays(ts[0], ss[0]) && UsesUp(stays, ts[1..], ss[1..], drops)
    ensures UsesUp(stays, ts, ss, [0] + Later(drops))
  {
    var d, ts2, ss2 := [0] + Later(drops), ts[1..], ss[1..];
    forall q | 0 <= q < |ss| ensures UsedBy(stays, ts, ss, d, q) {
      if q > 0 {
        assert UsedBy(stays, ts2, ss2, drops, q - 1) && ts2[drops[q - 1]] == ts[d[q]];
        forall i | From(d, q) <= i < d[q] ensures stays(ts[i], ss[q]) { assert ts[i] == ts2[i - 1]; }
      }
    }
  }

  lemma UsesUpOfDropped(stays: Test, ts: seq<Chunk>, ss: seq<Chunk>, drops: seq<nat>)
    requires ts != [] && ss != [] && !stays(ts[0], ss[0]) && UsesUp(stays, ts, ss, drops)
    ensures drops[0] == 0 && (forall q :: 0 <= q < |drops| - 1 ==> drops[1..][q] > 0)
    ensures UsesUp(stays, ts[1..], ss[1..], Sooner(drops[1..]))
  {
    assert UsedBy(stays, ts, ss, drops, 0);
    forall q | 0 <= q < |drops| - 1 ensures drops[1..][q] > 0 { DropsAscend(stays, ts, ss, drops, q + 1); }
    var d, ts2, ss2 := Sooner(drops[1..]), ts[1..], ss[1..];
    forall q | 0 <= q < |ss2| ensures UsedBy(stays, ts2, ss2, d, q) {
      assert UsedBy(stays, ts, ss, drops, q + 1) && ts2[d[q]] == ts[drops[q + 1]];
      forall i | From(d, q) <= i < d[q] ensures stays(ts2[i], ss2[q]) { assert ts2[i] == ts[i + 1]; }
    }
  }

  /** If the pointer comes to the end of the sources, they are used up one after the other. */
  lemma {:induction false} UsedUp(stays: Test, ts: seq<Chunk>, ss: seq<Chunk>) returns (drops: seq<nat>)
    requires Unused(stays, ts, ss) == []
    ensures UsesUp(stays, ts, ss, drops)
    decreases |ts|
  {
    if ss == [] {
      drops := [];
    } else if stays(ts[0], ss[0]) {
      drops := UsedUp(stays, ts[1..], ss);
      UsesUpKept(stays, ts, ss, drops);
      drops := Later(drops);
    } else {
      drops := UsedUp(stays, ts[1..], ss[1..]);
      UsesUpDropped(stays, ts, ss, drops);
      drops := [0] + Later(drops);
    }
  }

  /** And conversely; some target chunk stays exactly when there are more of them than the sources take. */
  lemma {:induction false} UsedUpMeans(stays: Test, ts: seq<Chunk>, ss: seq<Chunk>, drops: seq<nat>)
    requires UsesUp(stays, ts, ss, drops)
    ensures Unused(stays, ts, ss) == [] && (Keeps(stays, ts, ss) <==> ss != [] && drops[|ss| - 1] >= |ss|)
    decreases |ts|
  {
    if ss != [] {
      assert UsedBy(stays, ts, ss, drops, 0);
      if stays(ts[0], ss[0]) {
        UsesUpOfKept(stays, ts, ss, drops);
        UsedUpMeans(stays, ts[1..], ss, Sooner(drops));
        DropsAscend(stays, ts, ss, drops, |ss| - 1);
      } else {
        UsesUpOfDropped(stays, ts, ss, drops);
        UsedUpMeans(stays, ts[1..], ss[1..], Sooner(drops[1..]));
      }
    }
  }

  /** A chunk of the name is left without a source exactly when the chunks as they were read say so. */
  lemma LosesLastIff(stays: Test, ts: seq<Chunk>, ss: seq<Chunk>)
    ensures Unused(stays, ts, ss) == [] && Keeps(stays, ts, ss) <==> LosesLast(stays, ts, ss)
  {
    if Unused(stays, ts, ss) == [] && Keeps(stays, ts, ss) {
      var drops := UsedUp(stays, ts, ss);
      UsedUpMeans(stays, ts, ss, drops);
    }
    if LosesLast(stays, ts, ss) {
      var drops :| UsesUp(stays, ts, ss, drops) && drops[|ss| - 1] >= |ss|;
      UsedUpMeans(stays, ts, ss, drops);
    }
  }

  /** For a name with one source: target chunks that stay next to it, and then one that does not. */
  lemma LosesOnly(stays: Test, ts: seq<Chunk>, s: Chunk)
    ensures LosesLast(stays, ts, [s]) <==>
              exists j :: 0 < j < |ts| && !stays(ts[j], s) && forall i :: 0 <= i < j ==> stays(ts[i], s)
  {
    if j: nat :| 0 < j < |ts| && !stays(ts[j], s) && forall i :: 0 <= i < j ==> stays(ts[i], s) {
      assert UsedBy(stays, ts, [s], [j], 0);
      assert UsesUp(stays, ts, [s], [j]) && [j][0] >= 1;
    }
    if LosesLast(stays, ts, [s]) {
      var drops :| UsesUp(stays, ts, [s], drops) && drops[0] >= 1;
      assert UsedBy(stays, ts, [s], drops, 0);
    }
  }
}
