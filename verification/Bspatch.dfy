/** `ApplyBSDiffPatchMem`: rebuilds the new file in a buffer from old and the three streams of a patch. */
module Bspatch {
  import opened Bytes
  import opened BsdiffFormat

  /** `FillBuffer`: the next `size` bytes of a stream, or an error if it ends first. */
  method FillBuffer(stream: seq<byte>, size: nat) returns (ok: bool, data: seq<byte>, rest: seq<byte>)
    ensures ok <==> size <= |stream|
    ensures ok ==> |data| == size && data == stream[..size] && rest == stream[size..]
  {
    ok := size <= |stream|;
    if ok { data, rest := stream[..size], stream[size..]; } else { data, rest := [], stream; }
  }

  /** Puts the diff bytes into the buffer at `n`, then adds to each the byte of old under it, if there is one. */
  method AddDiff(buf: array<byte>, n: nat, diff: seq<byte>, old_: seq<byte>, opos: int)
    requires n + |diff| <= buf.Length
    modifies buf
    ensures buf[..n + |diff|] == old(buf[..n]) + AddOld(old_, opos, diff)
  {
    CopyIn(buf, n, diff);
    for i := 0 to |diff|
      invariant buf[..n] == old(buf[..n])
      invariant forall t :: 0 <= t < i ==> buf[n + t] == AddOld(old_, opos, diff)[t]
      invariant forall t :: i <= t < |diff| ==> buf[n + t] == diff[t]
    {
      if opos + i >= 0 && opos + i < |old_| { buf[n + i] := AddByte(buf[n + i], old_[opos + i]); }
    }
    assert buf[n..n + |diff|] == AddOld(old_, opos, diff);
    assert buf[..n + |diff|] == buf[..n] + buf[n..n + |diff|];
  }

  method CopyIn(buf: array<byte>, n: nat, data: seq<byte>)
    requires n + |data| <= buf.Length
    modifies buf
    ensures buf[..n] == old(buf[..n])
    ensures forall t :: 0 <= t < |data| ==> buf[n + t] == data[t]
    ensures buf[..n + |data|] == old(buf[..n]) + data
  {
    for i := 0 to |data|
      invariant buf[..n] == old(buf[..n])
      invariant forall t :: 0 <= t < i ==> buf[n + t] == data[t]
    {
      buf[n + i] := data[i];
    }
    assert buf[n..n + |data|] == data;
    assert buf[..n + |data|] == buf[..n] + buf[n..n + |data|];
  }

  /** One triple: diff bytes plus old bytes, then extra bytes. */
  method ApplyTriple(old_: seq<byte>, t: Triple, ds: seq<byte>, es: seq<byte>, buf: array<byte>, newpos: nat,
                     oldpos: int, ghost later: seq<Triple>)
      returns (ok: bool, ds2: seq<byte>, es2: seq<byte>, newpos2: nat, oldpos2: int)
    requires newpos < buf.Length
    modifies buf
    ensures ok ==> newpos2 <= buf.Length
    ensures Replay(old_, [t] + later, ds, es, buf.Length, old(buf[..newpos]), oldpos)
         == if ok then Replay(old_, later, ds2, es2, buf.Length, buf[..newpos2], oldpos2) else None
  {
    ghost var out := buf[..newpos];
    ds2, es2, newpos2, oldpos2 := ds, es, newpos, oldpos;
    assert ([t] + later)[1..] == later;
    if t.add < 0 || t.copy < 0 || newpos + t.add > buf.Length { return false, ds, es, newpos, oldpos; }
    var diff, extra;
    ok, diff, ds2 := FillBuffer(ds, t.add);
    if !ok { return; }
    AddDiff(buf, newpos, diff, old_, oldpos);
    newpos2, oldpos2 := newpos + t.add, oldpos + t.add;
    if newpos2 + t.copy > buf.Length { return false, ds, es, newpos, oldpos; }
    ok, extra, es2 := FillBuffer(es, t.copy);
    if !ok { return; }
    CopyIn(buf, newpos2, extra);
    newpos2, oldpos2 := newpos2 + t.copy, oldpos2 + t.seek;
  }

  /** The loop over the control triples. */
  method ReplayInto(old_: seq<byte>, ctrl: seq<Triple>, ds0: seq<byte>, es0: seq<byte>, size: nat)
      returns (r: Option<seq<byte>>)
    ensures r == Replay(old_, ctrl, ds0, es0, size, [], 0)
  {
    var buf := new byte[size];
    var newpos: nat, oldpos: int, ds, es, k: nat := 0, 0, ds0, es0, 0;
    assert buf[..0] == [] && ctrl[0..] == ctrl;
    while newpos < size
      invariant newpos <= size && k <= |ctrl|
      invariant Replay(old_, ctrl, ds0, es0, size, [], 0)
             == Replay(old_, ctrl[k..], ds, es, size, buf[..newpos], oldpos)
      decreases |ctrl| - k
    {
      if k == |ctrl| { return None; }
      assert ctrl[k..] == [ctrl[k]] + ctrl[k + 1..];
      var ok;
      ok, ds, es, newpos, oldpos := ApplyTriple(old_, ctrl[k], ds, es, buf, newpos, oldpos, ctrl[k + 1..]);
      if !ok { return None; }
      k := k + 1;
    }
    assert buf[..newpos] == buf[..];
    r := Some(buf[..]);
  }

  /** `ApplyBSDiffPatchMem`: the patch at `off` applied to old. */
  method ApplyBSDiffPatchMem(bz: Bzip2, old_: seq<byte>, patch: seq<byte>, off: nat) returns (r: Option<seq<byte>>)
    requires off + 32 <= |patch|
    ensures r == Apply(bz, old_, patch, off)
  {
    var blocks := Unpack(bz, patch, off);
    if blocks.None? { return None; }
    var b := blocks.value;
    r := ReplayInto(old_, DecodeCtrl(b.cs), b.ds, b.es, b.size);
  }
}
