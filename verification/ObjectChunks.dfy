/**
 MSCWriteObject and MSCReadObject of libmusclecard/src/musclecard.c: an object is
 transferred in chunks of one key packet (MSC_SIZEOF_KEYPACKET, 200 bytes), and
 progress is reported on a scale of MSC_PERCENT_STEPSIZE, 1000. The plugin fails on
 call k when `fails(k)`, and the callback cancels after chunk k when `cancels(k)`.
 */
module ObjectChunks {
  import opened Wrappers

  const KEY_PACKET: nat := 200
  const PERCENT_STEPSIZE: nat := 1000

  datatype Outcome = Done | PluginError | Cancelled | Unspecified

  datatype Chunk = Chunk(at: nat, len: nat)

  /** The chunks tile [from, from + size) in order, without gap or overlap, none empty and none above the packet size. */
  ghost predicate Tiles(cs: seq<Chunk>, from: nat, size: nat) {
    if cs == [] then size == 0
    else
      && cs[0].at == from && 0 < cs[0].len <= KEY_PACKET && cs[0].len <= size
      && Tiles(cs[1..], from + cs[0].len, size - cs[0].len)
  }

  lemma {:induction false} TilesSnoc(cs: seq<Chunk>, from: nat, size: nat, c: Chunk)
    requires Tiles(cs, from, size) && c.at == from + size && 0 < c.len <= KEY_PACKET
    ensures Tiles(cs + [c], from, size + c.len)
  {
    if cs == [] {
      assert (cs + [c])[1..] == [];
    } else {
      assert (cs + [c])[1..] == cs[1..] + [c];
      TilesSnoc(cs[1..], from + cs[0].len, size - cs[0].len, c);
    }
  }

  /** A tiling visits every byte of its range in exactly one chunk. */
  ghost predicate Covers(c: Chunk, p: nat) { c.at <= p < c.at + c.len }

  lemma {:induction false} TilesCoverOnce(cs: seq<Chunk>, from: nat, size: nat, p: nat) returns (k: nat)
    requires Tiles(cs, from, size) && from <= p < from + size
    ensures k < |cs| && Covers(cs[k], p) && forall j :: 0 <= j < |cs| && Covers(cs[j], p) ==> j == k
  {
    if Covers(cs[0], p) {
      k := 0;
      TilesBeyond(cs[1..], from + cs[0].len, size - cs[0].len);
      assert forall j :: 1 <= j < |cs| ==> cs[j] == cs[1..][j - 1];
    } else {
      k := TilesCoverOnce(cs[1..], from + cs[0].len, size - cs[0].len, p);
      assert forall j :: 1 <= j < |cs| ==> cs[j] == cs[1..][j - 1];
      k := k + 1;
    }
  }

  lemma {:induction false} TilesBeyond(cs: seq<Chunk>, from: nat, size: nat)
    requires Tiles(cs, from, size)
    ensures forall j :: 0 <= j < |cs| ==> from <= cs[j].at && cs[j].at + cs[j].len <= from + size
  {
    if cs != [] {
      TilesBeyond(cs[1..], from + cs[0].len, size - cs[0].len);
      assert forall j :: 1 <= j < |cs| ==> cs[j] == cs[1..][j - 1];
    }
  }

  /** Bytes of the object after `data` has been written at `at`. */
  function Written(obj: seq<Byte>, at: nat, data: seq<Byte>): seq<Byte>
    requires at + |data| <= |obj|
  {
    obj[..at] + data + obj[at + |data|..]
  }

  lemma {:induction false} WrittenTwice(obj: seq<Byte>, at: nat, a: seq<Byte>, b: seq<Byte>)
    requires at + |a| + |b| <= |obj|
    ensures Written(Written(obj, at, a), at + |a|, b) == Written(obj, at, a + b)
  {
  }

  /** Reported progress never falls and never exceeds the scale. */
  ghost predicate Steady(progress: seq<nat>) {
    && (forall i :: 0 <= i < |progress| ==> progress[i] <= PERCENT_STEPSIZE)
    && (forall i, j :: 0 <= i < j < |progress| ==> progress[i] <= progress[j])
  }

  /** The first n progress values at a given step interval. */
  ghost function Reported(step: nat, n: nat): (r: seq<nat>)
    ensures |r| == n
  {
    if n == 0 then [] else Reported(step, n - 1) + [step * (n - 1)]
  }

  lemma {:induction false} ReportedAt(step: nat, n: nat, k: nat)
    requires k < n
    ensures Reported(step, n)[k] == step * k
  {
    if k < n - 1 {
      ReportedAt(step, n - 1, k);
    }
  }

  method Report(progress: seq<nat>, step: nat) returns (p: seq<nat>)
    requires progress == Reported(step, |progress|)
    ensures |p| == |progress| + 1 && p == Reported(step, |p|)
  {
    p := progress + [step * |progress|];
  }

  lemma {:induction false} ReportedSteady(full: nat, n: nat)
    requires n <= full
    ensures Steady(Reported(PERCENT_STEPSIZE / (full + 1), n))
  {
    var step := PERCENT_STEPSIZE / (full + 1);
    var r := Reported(step, n);
    forall i, j | 0 <= i <= j < |r| ensures r[i] <= r[j] <= PERCENT_STEPSIZE {
      ReportedAt(step, n, i);
      ReportedAt(step, n, j);
      PaceGrows(step, i, j, full);
    }
  }

  lemma {:induction false} PaceGrows(step: nat, i: nat, j: nat, full: nat)
    requires i <= j <= full && step == PERCENT_STEPSIZE / (full + 1)
    ensures step * i <= step * j <= PERCENT_STEPSIZE
  {
    assert step * (j - i) >= 0 && step * (full - j) >= 0;
    assert (full + 1) * step <= PERCENT_STEPSIZE;
  }

  /** Value number k that is reported on the way, for a transfer of `size` bytes. */
  function Pace(size: nat, k: nat): nat {
    PERCENT_STEPSIZE / (size / KEY_PACKET + 1) * k
  }

  lemma {:induction false} ReportedPace(size: nat, n: nat)
    ensures forall k :: 0 <= k < n ==> Reported(PERCENT_STEPSIZE / (size / KEY_PACKET + 1), n)[k] == Pace(size, k)
  {
    var step := PERCENT_STEPSIZE / (size / KEY_PACKET + 1);
    forall k | 0 <= k < n ensures Reported(step, n)[k] == Pace(size, k) {
      ReportedAt(step, n, k);
    }
  }

  ghost predicate Calm(n: nat, fails: nat -> bool, cancels: nat -> bool) {
    forall k :: 0 <= k < n ==> !fails(k) && !cancels(k)
  }

  /** Why a transfer after the given calls stopped early. */
  ghost predicate Stopped(rv: Outcome, calls: nat, fails: nat -> bool, cancels: nat -> bool) {
    match rv
    case PluginError => fails(calls) && Calm(calls, fails, cancels)
    case Cancelled => calls > 0 && cancels(calls - 1) && !fails(calls - 1) && Calm(calls - 1, fails, cancels)
    case _ => false
  }

  /** Neither a plugin call nor the callback stops the transfer. */
  ghost predicate Undisturbed(size: nat, fails: nat -> bool, cancels: nat -> bool)
  {
    && Calm(size / KEY_PACKET, fails, cancels)
    && (size % KEY_PACKET != 0 ==> !fails(size / KEY_PACKET))
  }

  /** The object and the calls after the first `done` bytes of `data` went out. */
  ghost predicate Sent(obj0: seq<Byte>, obj: seq<Byte>, offset: nat, data: seq<Byte>, done: nat, calls: seq<Chunk>) {
    && done <= |data| && offset + |data| <= |obj0|
    && obj == Written(obj0, offset, data[..done])
    && Tiles(calls, offset, done)
  }

  method PutChunk(ghost obj0: seq<Byte>, obj: seq<Byte>, offset: nat, data: seq<Byte>, done: nat, len: nat, calls: seq<Chunk>)
    returns (r: seq<Byte>, cs: seq<Chunk>)
    requires Sent(obj0, obj, offset, data, done, calls) && 0 < len <= KEY_PACKET && done + len <= |data|
    ensures Sent(obj0, r, offset, data, done + len, cs) && |cs| == |calls| + 1
  {
    var chunk := data[done..done + len];
    WrittenTwice(obj0, offset, data[..done], chunk);
    TilesSnoc(calls, offset, done, Chunk(offset + done, len));
    assert data[..done] + chunk == data[..done + len];
    r, cs := Written(obj, offset + done, chunk), calls + [Chunk(offset + done, len)];
  }

  /** The full packets. */
  method WritePackets(obj0: seq<Byte>, offset: nat, data: seq<Byte>, step: nat, fails: nat -> bool, cancels: nat -> bool)
    returns (rv: Outcome, done: nat, obj: seq<Byte>, calls: seq<Chunk>, progress: seq<nat>)
    requires offset + |data| <= |obj0|
    ensures Sent(obj0, obj, offset, data, done, calls) && |progress| <= |data| / KEY_PACKET && progress == Reported(step, |progress|)
    ensures rv in {Done, Unspecified} <==> Calm(|data| / KEY_PACKET, fails, cancels)
    ensures rv in {Done, Unspecified} ==> done == |data| / KEY_PACKET * KEY_PACKET && |calls| == |progress| == |data| / KEY_PACKET
    ensures rv == Unspecified ==> done == 0
    ensures rv == Done ==> done > 0
    ensures rv in {PluginError, Cancelled} ==> Stopped(rv, |calls|, fails, cancels) && |progress| == |calls|
  {
    obj, done, calls, progress := obj0, 0, [], [];
    rv := Unspecified;
    var full, i := |data| / KEY_PACKET, 0;
    while i < full
      invariant 0 <= i <= full && done == i * KEY_PACKET <= |data|
      invariant Sent(obj0, obj, offset, data, done, calls)
      invariant |calls| == |progress| == i && progress == Reported(step, |progress|)
      invariant rv == if i > 0 then Done else Unspecified
      invariant Calm(i, fails, cancels)
    {
      if fails(i) { return PluginError, done, obj, calls, progress; }
      obj, calls := PutChunk(obj0, obj, offset, data, done, KEY_PACKET, calls);
      done, rv := done + KEY_PACKET, Done;
      progress := Report(progress, step);
      if cancels(i) { return Cancelled, done, obj, calls, progress; }
      i := i + 1;
    }
  }

  method WriteObject(obj0: seq<Byte>, offset: nat, data: seq<Byte>, fails: nat -> bool, cancels: nat -> bool)
    returns (rv: Outcome, done: nat, obj: seq<Byte>, calls: seq<Chunk>, progress: seq<nat>)
    requires offset + |data| <= |obj0|
    ensures Sent(obj0, obj, offset, data, done, calls) && Steady(progress)
    ensures rv == Unspecified <==> data == []
    ensures rv == Done <==> data != [] && Undisturbed(|data|, fails, cancels)
    ensures rv == Done ==> done == |data| && |progress| == |data| / KEY_PACKET + 1 && progress[|data| / KEY_PACKET] == PERCENT_STEPSIZE
    ensures rv in {PluginError, Cancelled} ==> Stopped(rv, |calls|, fails, cancels) && |progress| == |calls|
    ensures forall k :: 0 <= k < |progress| && k < |data| / KEY_PACKET ==> progress[k] == Pace(|data|, k)
  {
    var totalSteps := |data| / KEY_PACKET + 1;
    var stepInterval := PERCENT_STEPSIZE / totalSteps;
    rv, done, obj, calls, progress := WritePackets(obj0, offset, data, stepInterval, fails, cancels);
    ReportedSteady(|data| / KEY_PACKET, |progress|);
    ReportedPace(|data|, |progress|);
    if rv == PluginError || rv == Cancelled { return; }
    var i := |data| / KEY_PACKET;
    if |data| % KEY_PACKET != 0 {
      if fails(i) { return PluginError, done, obj, calls, progress; }
      obj, calls := PutChunk(obj0, obj, offset, data, done, |data| % KEY_PACKET, calls);
      done, rv := |data|, Done;
    }
    progress := progress + [PERCENT_STEPSIZE];
  }

  /** The plugin's read: fills out[at..at + len] with the object's bytes from `from`. */
  method FillChunk(obj: seq<Byte>, from: nat, out: array<Byte>, at: nat, len: nat)
    requires at + len <= out.Length && from + len <= |obj|
    modifies out
    ensures forall k :: 0 <= k < out.Length ==> out[k] == if at <= k < at + len then obj[from + k - at] else old(out[k])
  {
    var j := 0;
    while j < len
      invariant 0 <= j <= len
      invariant forall k :: 0 <= k < out.Length ==> out[k] == if at <= k < at + j then obj[from + k - at] else old(out[k])
    {
      out[at + j] := obj[from + j];
      j := j + 1;
    }
  }

  /** The output buffer and the calls after the first `done` bytes came in. */
  ghost predicate Received(obj: seq<Byte>, offset: nat, was: seq<Byte>, out: array<Byte>, done: nat, calls: seq<Chunk>)
    reads out
  {
    && done <= |was| == out.Length && offset + done <= |obj|
    && (forall k :: 0 <= k < done ==> out[k] == obj[offset + k])
    && (forall k :: done <= k < out.Length ==> out[k] == was[k])
    && Tiles(calls, offset, done)
  }

  method GetChunk(obj: seq<Byte>, offset: nat, ghost was: seq<Byte>, out: array<Byte>, done: nat, len: nat, calls: seq<Chunk>)
    returns (cs: seq<Chunk>)
    requires Received(obj, offset, was, out, done, calls)
    requires 0 < len <= KEY_PACKET && done + len <= out.Length && offset + done + len <= |obj|
    modifies out
    ensures Received(obj, offset, was, out, done + len, cs) && |cs| == |calls| + 1
  {
    FillChunk(obj, offset + done, out, done, len);
    TilesSnoc(calls, offset, done, Chunk(offset + done, len));
    cs := calls + [Chunk(offset + done, len)];
  }

  /** The full packets. */
  method ReadPackets(obj: seq<Byte>, offset: nat, ghost was: seq<Byte>, out: array<Byte>, size: nat, step: nat, fails: nat -> bool, cancels: nat -> bool)
    returns (rv: Outcome, done: nat, calls: seq<Chunk>, progress: seq<nat>)
    requires offset + size <= |obj| && size <= out.Length && was == out[..]
    modifies out
    ensures Received(obj, offset, was, out, done, calls) && |progress| <= size / KEY_PACKET && progress == Reported(step, |progress|)
    ensures done <= size
    ensures rv in {Done, Unspecified} <==> Calm(size / KEY_PACKET, fails, cancels)
    ensures rv in {Done, Unspecified} ==> done == size / KEY_PACKET * KEY_PACKET && |calls| == |progress| == size / KEY_PACKET
    ensures rv == Unspecified ==> done == 0
    ensures rv == Done ==> done > 0
    ensures rv in {PluginError, Cancelled} ==> Stopped(rv, |calls|, fails, cancels) && |progress| == |calls|
  {
    done, calls, progress := 0, [], [];
    rv := Unspecified;
    var full, i := size / KEY_PACKET, 0;
    while i < full
      invariant 0 <= i <= full && done == i * KEY_PACKET <= size
      invariant Received(obj, offset, was, out, done, calls)
      invariant |calls| == |progress| == i && progress == Reported(step, |progress|)
      invariant rv == if i > 0 then Done else Unspecified
      invariant Calm(i, fails, cancels)
    {
      if fails(i) { return PluginError, done, calls, progress; }
      calls := GetChunk(obj, offset, was, out, done, KEY_PACKET, calls);
      done, rv := done + KEY_PACKET, Done;
      progress := Report(progress, step);
      if cancels(i) { return Cancelled, done, calls, progress; }
      i := i + 1;
    }
  }

  method ReadObject(obj: seq<Byte>, offset: nat, out: array<Byte>, size: nat, fails: nat -> bool, cancels: nat -> bool)
    returns (rv: Outcome, done: nat, calls: seq<Chunk>, progress: seq<nat>)
    requires offset + size <= |obj| && size <= out.Length
    modifies out
    ensures Received(obj, offset, old(out[..]), out, done, calls) && Steady(progress)
    ensures done <= size
    ensures rv == Unspecified <==> size == 0
    ensures rv == Done <==> size != 0 && Undisturbed(size, fails, cancels)
    ensures rv == Done ==> done == size && |progress| == size / KEY_PACKET + 1 && progress[size / KEY_PACKET] == PERCENT_STEPSIZE
    ensures rv in {PluginError, Cancelled} ==> Stopped(rv, |calls|, fails, cancels) && |progress| == |calls|
    ensures forall k :: 0 <= k < |progress| && k < size / KEY_PACKET ==> progress[k] == Pace(size, k)
  {
    ghost var was := out[..];
    var totalSteps := size / KEY_PACKET + 1;
    var stepInterval := PERCENT_STEPSIZE / totalSteps;
    rv, done, calls, progress := ReadPackets(obj, offset, was, out, size, stepInterval, fails, cancels);
    ReportedSteady(size / KEY_PACKET, |progress|);
    ReportedPace(size, |progress|);
    if rv == PluginError || rv == Cancelled { return; }
    var i := size / KEY_PACKET;
    if size % KEY_PACKET != 0 {
      if fails(i) { return PluginError, done, calls, progress; }
      calls := GetChunk(obj, offset, was, out, done, size % KEY_PACKET, calls);
      done, rv := size, Done;
    }
    progress := progress + [PERCENT_STEPSIZE];
  }

  /** A completed write followed by a completed read of the same range gives the bytes back. */
  method WriteThenRead(obj0: seq<Byte>, offset: nat, data: seq<Byte>)
    returns (obj: seq<Byte>, back: seq<Byte>)
    requires offset + |data| <= |obj0| && data != []
    ensures back == data
    ensures |obj| == |obj0| && obj[..offset] == obj0[..offset] && obj[offset + |data|..] == obj0[offset + |data|..]
  {
    var calm := (k: nat) => false;
    var out := new Byte[|data|](_ => 0);
    var wrote, n, written, _, _ := WriteObject(obj0, offset, data, calm, calm);
    obj := written;
    assert data[..n] == data;
    var read, m, _, _ := ReadObject(obj, offset, out, |data|, calm, calm);
    assert obj[offset..offset + |data|] == data;
    back := out[..];
  }
}
