/** The circular buffers of the JTAG UART fast driver: BUF_LEN slots, an output index `lo`, an input
    index `hi`, and one slot always left empty so that `lo == hi` means "empty". */
module Ring {
  import opened Common

  const BUF_LEN: nat := 2048

  /** The bytes held between the two indices, oldest first. */
  function Window<T>(b: seq<T>, lo: nat, hi: nat): seq<T>
    requires |b| == BUF_LEN && lo < BUF_LEN && hi < BUF_LEN
  {
    if lo <= hi then b[lo..hi] else b[lo..] + b[..hi]
  }

  /** How many bytes lie between two indices. */
  function Count(lo: nat, hi: nat): (n: nat)
    requires lo < BUF_LEN && hi < BUF_LEN
  {
    if lo <= hi then hi - lo else BUF_LEN - lo + hi
  }

  /** The k-th byte held sits k slots after `lo`, modulo the buffer length. */
  lemma WindowAt<T>(b: seq<T>, lo: nat, hi: nat)
    requires |b| == BUF_LEN && lo < BUF_LEN && hi < BUF_LEN
    ensures |Window(b, lo, hi)| == Count(lo, hi) < BUF_LEN
    ensures forall k :: 0 <= k < Count(lo, hi) ==> Window(b, lo, hi)[k] == b[(lo + k) % BUF_LEN]
  {
  }

  /** Storing into a slot outside the window leaves the window alone. */
  lemma WindowFrame<T>(b: seq<T>, lo: nat, hi: nat, j: nat, x: T)
    requires |b| == BUF_LEN && lo < BUF_LEN && hi < BUF_LEN
    requires hi + j < BUF_LEN && Count(lo, hi) + j < BUF_LEN
    ensures Window(b[hi + j := x], lo, hi) == Window(b, lo, hi)
  {
  }

  /** Publishing n slots that follow `hi` without wrapping appends exactly their contents, provided
      they fit in the free space. */
  lemma WindowExtend<T>(b: seq<T>, lo: nat, hi: nat, n: nat)
    requires |b| == BUF_LEN && lo < BUF_LEN && hi < BUF_LEN
    requires hi + n <= BUF_LEN && Count(lo, hi) + n < BUF_LEN
    ensures Window(b, lo, (hi + n) % BUF_LEN) == Window(b, lo, hi) + b[hi..hi + n]
    ensures Count(lo, (hi + n) % BUF_LEN) == Count(lo, hi) + n
  {
    var next := if hi + n < BUF_LEN then hi + n else 0;
    assert (hi + n) % BUF_LEN == next;
    if lo <= hi {
      assert b[lo..hi] + b[hi..hi + n] == b[lo..hi + n];
      assert hi + n == BUF_LEN ==> b[lo..] + b[..0] == b[lo..hi + n];
    } else {
      assert b[..hi] + b[hi..hi + n] == b[..hi + n];
      Associative(b[lo..], b[..hi], b[hi..hi + n]);
    }
  }

  /** Storing one byte at `hi` and stepping `hi` appends that byte. */
  lemma WindowPush<T>(b: seq<T>, lo: nat, hi: nat, x: T)
    requires |b| == BUF_LEN && lo < BUF_LEN && hi < BUF_LEN
    requires (hi + 1) % BUF_LEN != lo
    ensures Window(b[hi := x], lo, (hi + 1) % BUF_LEN) == Window(b, lo, hi) + [x]
  {
    assert Count(lo, hi) + 1 < BUF_LEN;
    WindowFrame(b, lo, hi, 0, x);
    WindowExtend(b[hi := x], lo, hi, 1);
  }

  lemma CutFirst<T>(s: seq<T>, t: seq<T>, n: nat)
    requires n <= |s|
    ensures (s + t)[..n] == s[..n] && (s + t)[n..] == s[n..] + t
  {
  }

  /** Advancing `lo` by n without wrapping removes exactly the n oldest bytes. */
  lemma WindowDrop<T>(b: seq<T>, lo: nat, hi: nat, n: nat)
    requires |b| == BUF_LEN && lo < BUF_LEN && hi < BUF_LEN
    requires lo + n <= BUF_LEN && n <= Count(lo, hi)
    ensures Window(b, lo, hi)[..n] == b[lo..lo + n]
    ensures Window(b, (lo + n) % BUF_LEN, hi) == Window(b, lo, hi)[n..]
    ensures Count((lo + n) % BUF_LEN, hi) == Count(lo, hi) - n
  {
    var next := if lo + n < BUF_LEN then lo + n else 0;
    assert (lo + n) % BUF_LEN == next;
    if lo > hi {
      CutFirst(b[lo..], b[..hi], n);
      assert b[lo..][n..] == b[lo + n..];
      assert next == 0 ==> b[lo + n..] + b[..hi] == b[..hi];
    }
  }

  /** The producer's room: how many slots from `hi` on may be filled without wrapping, given the other
      side's index.  It is zero exactly when the buffer is full. */
  function Room(lo: nat, hi: nat): (n: nat)
    requires lo < BUF_LEN && hi < BUF_LEN
    ensures hi + n <= BUF_LEN && Count(lo, hi) + n < BUF_LEN
    ensures n == 0 <==> Count(lo, hi) == BUF_LEN - 1
    ensures n == 0 <==> (hi + 1) % BUF_LEN == lo
  {
    if hi < lo then lo - 1 - hi
    else if lo > 0 then BUF_LEN - hi
    else BUF_LEN - 1 - hi
  }

  /** The consumer's supply: how many bytes from `lo` on may be taken without wrapping.  It is zero
      exactly when the buffer is empty. */
  function Supply(lo: nat, hi: nat): (n: nat)
    requires lo < BUF_LEN && hi < BUF_LEN
    ensures lo + n <= BUF_LEN && n <= Count(lo, hi)
    ensures n == 0 <==> Count(lo, hi) == 0
    ensures n == 0 <==> lo == hi
  {
    if hi >= lo then hi - lo else BUF_LEN - lo
  }

  /** A producer that saw the buffer full through a snapshot `out` of the other index may compare the
      live index with it: since at most BUF_LEN - 1 bytes can leave, the index cannot come all the way
      round, and it reads `out` again only if the buffer is still full. */
  lemma StillFull<T>(b: seq<T>, lo: nat, hi: nat, out: nat)
    requires |b| == BUF_LEN && lo < BUF_LEN && hi < BUF_LEN && (hi + 1) % BUF_LEN == out
    ensures lo == out <==> |Window(b, lo, hi)| == BUF_LEN - 1
  {
    WindowAt(b, lo, hi);
  }

  /** Likewise for a consumer that saw the buffer empty through a snapshot of the input index. */
  lemma StillEmpty<T>(b: seq<T>, lo: nat, hi: nat)
    requires |b| == BUF_LEN && lo < BUF_LEN && hi < BUF_LEN
    ensures hi == lo <==> Window(b, lo, hi) == []
  {
    WindowAt(b, lo, hi);
  }
}
