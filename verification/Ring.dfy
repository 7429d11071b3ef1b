/** The byte ring both halves of the JTAG UART driver use: one slot always stays free. */
module Ring {
  import opened Bits

  const EWOULDBLOCK: int := 11
  const EIO: int := 5

  /** (i + k) % n for indices that pass the end of the ring at most once. */
  function Wrap(i: nat, n: nat): (r: nat)
    requires n > 0 && i < 2 * n
    ensures r < n && r == i % n
  {
    DivModUnique(i, n, if i >= n then 1 else 0, if i >= n then i - n else i);
    if i >= n then i - n else i
  }

  /** The number of occupied slots of a ring of n slots. */
  function Occupied(inp: nat, outp: nat, n: nat): nat
    requires inp < n && outp < n
  {
    if inp >= outp then inp - outp else n - outp + inp
  }

  /** The occupied slots, oldest first. */
  function Contents(buf: seq<byte>, inp: nat, outp: nat): (c: seq<byte>)
    requires inp < |buf| && outp < |buf|
    ensures |c| == Occupied(inp, outp, |buf|) < |buf|
  {
    if inp >= outp then buf[outp..inp] else buf[outp..] + buf[..inp]
  }

  lemma ContentsDrop(buf: seq<byte>, inp: nat, outp: nat)
    requires inp < |buf| && outp < |buf| && inp != outp
    ensures Contents(buf, inp, Wrap(outp + 1, |buf|)) == Contents(buf, inp, outp)[1..]
    ensures Contents(buf, inp, outp)[0] == buf[outp]
  {
  }

  lemma ContentsAppend(buf: seq<byte>, inp: nat, outp: nat, b: byte)
    requires inp < |buf| && outp < |buf| && Wrap(inp + 1, |buf|) != outp
    ensures Contents(buf[inp := b], Wrap(inp + 1, |buf|), outp) == Contents(buf, inp, outp) + [b]
  {
  }

  /** Publishing n slots written behind the input index appends them; they must fit and not wrap. */
  lemma ContentsPublish(buf: seq<byte>, inp: nat, outp: nat, n: nat)
    requires inp < |buf| && outp < |buf| && inp + n <= |buf| && Occupied(inp, outp, |buf|) + n < |buf|
    ensures Contents(buf, Wrap(inp + n, |buf|), outp) == Contents(buf, inp, outp) + buf[inp..inp + n]
  {
  }

  lemma ContentsConsume(buf: seq<byte>, inp: nat, outp: nat, n: nat)
    requires inp < |buf| && outp < |buf| && outp + n <= |buf| && n <= Occupied(inp, outp, |buf|)
    ensures Contents(buf, inp, Wrap(outp + n, |buf|)) == Contents(buf, inp, outp)[n..]
    ensures buf[outp..outp + n] == Contents(buf, inp, outp)[..n]
  {
    if inp >= outp {
      SliceSplit(buf, outp, inp, n);
    } else {
      hide Wrap;
      SliceSplit(buf, outp, |buf|, n);
      assert buf[outp..] == buf[outp..|buf|];
      SplitSum(buf[outp..], buf[..inp], n);
      if outp + n == |buf| {
        assert buf[outp..][n..] == [];
      } else {
        assert buf[outp..][n..] == buf[outp + n..];
      }
    }
  }

  lemma SliceSplit(s: seq<byte>, a: nat, b: nat, n: nat)
    requires a + n <= b <= |s|
    ensures s[a..b][..n] == s[a..a + n] && s[a..b][n..] == s[a + n..b]
  {
  }

  lemma SplitSum(s: seq<byte>, t: seq<byte>, n: nat)
    requires n <= |s|
    ensures (s + t)[..n] == s[..n] && (s + t)[n..] == s[n..] + t
  {
  }

  /** A slot outside the occupied ones can be written without being noticed. */
  lemma ContentsUnaffected(buf: seq<byte>, inp: nat, outp: nat, k: nat, b: byte)
    requires inp < |buf| && outp < |buf| && inp <= k < |buf| && Occupied(inp, outp, |buf|) + (k - inp) < |buf| - 1
    ensures Contents(buf[k := b], inp, outp) == Contents(buf, inp, outp)
  {
  }
}
