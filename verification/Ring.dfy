/** Circular buffers with one slot kept free, as the JTAG UART driver uses them: the contents run from
    index `out` up to, not including, index `in`, past the end of the array if need be. */
module Ring {

  /** `n` places on from `i`, for a run that stays inside the array. */
  function Advance(i: nat, n: nat, len: nat): (r: nat)
    requires i + n <= len && i < len
    ensures r == (if i + n == len then 0 else i + n) < len
  {
    (i + n) % len
  }

  function Contents<T>(buf: seq<T>, out: nat, inn: nat): (r: seq<T>)
    requires out < |buf| && inn < |buf|
    ensures |r| == if out <= inn then inn - out else |buf| - out + inn
  {
    if out <= inn then buf[out..inn] else buf[out..] + buf[..inn]
  }

  /** The contents are full exactly when the next place is the one to be read. */
  lemma RoomBehind<T>(buf: seq<T>, out: nat, inn: nat)
    requires out < |buf| && inn < |buf|
    ensures |Contents(buf, out, inn)| < |buf|
    ensures |Contents(buf, out, inn)| == |buf| - 1 <==> Advance(inn, 1, |buf|) == out
    ensures Contents(buf, out, inn) == [] <==> out == inn
  {
    hide Advance;
  }

  /** Taking a run off the part up to the end of the array, with what is at its beginning behind it. */
  lemma TakeWrapped<T>(buf: seq<T>, out: nat, inn: nat, n: nat)
    requires inn < out < |buf| && out + n <= |buf|
    ensures buf[out..] + buf[..inn] == buf[out..out + n] + (buf[out + n..] + buf[..inn])
  {
    assert buf[out..] == buf[out..out + n] + buf[out + n..];
  }

  /** Taking a contiguous run from the front. */
  lemma TakeRun<T>(buf: seq<T>, out: nat, inn: nat, n: nat)
    requires out < |buf| && inn < |buf| && out + n <= |buf| && n <= |Contents(buf, out, inn)|
    ensures Contents(buf, out, inn) == buf[out..out + n] + Contents(buf, Advance(out, n, |buf|), inn)
  {
    hide Advance;
    if out <= inn {
      assert buf[out..inn] == buf[out..out + n] + buf[out + n..inn];
    } else {
      TakeWrapped(buf, out, inn, n);
      if out + n == |buf| {
        assert buf[out + n..] == [] && buf[0..inn] == buf[..inn];
      }
    }
  }

  /** Publishing a contiguous run already stored behind the contents, with a slot left free. */
  lemma PutRun<T>(buf: seq<T>, out: nat, inn: nat, n: nat)
    requires out < |buf| && inn < |buf| && inn + n <= |buf| && |Contents(buf, out, inn)| + n < |buf|
    ensures Contents(buf, out, Advance(inn, n, |buf|)) == Contents(buf, out, inn) + buf[inn..inn + n]
  {
    hide Advance;
    if out <= inn {
      assert buf[out..inn] + buf[inn..inn + n] == buf[out..inn + n];
    } else {
      assert buf[..inn] + buf[inn..inn + n] == buf[..inn + n];
    }
  }

  /** Storing into a slot behind the contents does not show. */
  lemma StoreFree<T>(buf: seq<T>, out: nat, inn: nat, k: nat, x: T)
    requires out < |buf| && inn < |buf| && inn + k < |buf| && |Contents(buf, out, inn)| + k < |buf|
    ensures Contents(buf[inn + k := x], out, inn) == Contents(buf, out, inn)
  {
  }

  lemma StoreOne<T>(buf: seq<T>, out: nat, inn: nat, x: T)
    requires out < |buf| && inn < |buf| && Advance(inn, 1, |buf|) != out
    ensures Contents(buf[inn := x], out, Advance(inn, 1, |buf|)) == Contents(buf, out, inn) + [x]
  {
    hide Advance;
    RoomBehind(buf, out, inn);
    StoreFree(buf, out, inn, 0, x);
    PutRun(buf[inn := x], out, inn, 1);
    assert buf[inn := x][inn..inn + 1] == [x];
  }

  lemma TakeOne<T>(buf: seq<T>, out: nat, inn: nat)
    requires out < |buf| && inn < |buf| && out != inn
    ensures Contents(buf, out, inn) == [buf[out]] + Contents(buf, Advance(out, 1, |buf|), inn)
  {
    hide Advance;
    TakeRun(buf, out, inn, 1);
    assert buf[out..out + 1] == [buf[out]];
  }

  lemma RoomElsewhere<T>(buf: seq<T>, out: nat, out': nat, inn: nat)
    requires out < |buf| && out' < |buf| && inn < |buf| && |Contents(buf, out, inn)| == |buf| - 1
    ensures out' != out ==> |Contents(buf, out', inn)| < |buf| - 1
  {
  }

  lemma ContentsAt<T>(buf: seq<T>, out: nat, inn: nat, k: nat)
    requires out < |buf| && inn < |buf| && k < |Contents(buf, out, inn)| && out + k < |buf|
    ensures Contents(buf, out, inn)[k] == buf[out + k]
  {
  }
}
