/** The sparse-file writer: stretches of zeros are skipped instead of written, and still the
    file ends up with exactly the bytes it was given. */
module SparseFile {
  import opened BlockFormat
  import opened Memory
  import opened MatchCount

  const ONE_GB := 0x4000_0000
  const SEGMENT_SIZE := 32768
  const SIZE_T := 8

  /** A file with a position; writing behind its end leaves a hole that reads as zeros. */
  class File {
    var data: seq<byte>
    var pos: nat

    constructor ()
      ensures data == [] && pos == 0
    {
      data, pos := [], 0;
    }

    method SeekForward(n: nat)
      modifies this
      ensures pos == old(pos) + n && data == old(data)
    {
      pos := pos + n;
    }

    method Write(mem: array<byte>, from: nat, n: nat)
      requires from + n <= mem.Length && |data| <= pos
      modifies this
      ensures pos == old(pos) + n
      ensures data == if n == 0 then old(data) else old(data) + Zeros(old(pos - |data|)) + mem[from..from + n]
    {
      if n > 0 {
        data := data + Zeros(pos - |data|) + mem[from..from + n];
      }
      pos := pos + n;
    }
  }

  /** The file stands for content `c`, `storedSkips` zeros at its end being still owed. */
  ghost predicate Holds(data: seq<byte>, pos: nat, c: seq<byte>, storedSkips: nat) {
    && |data| <= pos && pos + storedSkips == |c| && c == data + Zeros(|c| - |data|)
    && (storedSkips == 0 ==> |data| == pos)
  }

  lemma HoldsSkip(data: seq<byte>, pos: nat, c: seq<byte>, storedSkips: nat, n: nat)
    requires Holds(data, pos, c, storedSkips)
    ensures Holds(data, pos, c + Zeros(n), storedSkips + n)
  {
  }

  lemma HoldsWrite(data: seq<byte>, pos: nat, c: seq<byte>, storedSkips: nat, t: seq<byte>, data': seq<byte>)
    requires Holds(data, pos, c, storedSkips) && t != []
    requires data' == data + Zeros(pos + storedSkips - |data|) + t
    ensures Holds(data', pos + storedSkips + |t|, c + t, 0)
  {
  }

  /** How many of the `n` words at `p` are zero before the first one that is not. */
  method LeadingZeroWords(mem: array<byte>, p: nat, n: nat) returns (nb: nat)
    requires p + SIZE_T * n <= mem.Length
    ensures nb <= n && mem[p..p + SIZE_T * nb] == Zeros(SIZE_T * nb)
    ensures nb < n ==> Word(mem[..], p + SIZE_T * nb, SIZE_T) != 0
  {
    hide Word;
    nb := 0;
    while nb < n && Word(mem[..], p + SIZE_T * nb, SIZE_T) == 0
      invariant nb <= n && mem[p..p + SIZE_T * nb] == Zeros(SIZE_T * nb)
    {
      ZeroWordBytes(mem[..], p + SIZE_T * nb, SIZE_T);
      assert mem[p..p + SIZE_T * (nb + 1)] == mem[p..p + SIZE_T * nb] + mem[p + SIZE_T * nb..p + SIZE_T * (nb + 1)];
      nb := nb + 1;
    }
  }

  lemma {:induction false} ZeroWordBytes(m: seq<byte>, p: nat, n: nat)
    requires p + n <= |m| && Word(m, p, n) == 0
    ensures m[p..p + n] == Zeros(n)
    decreases n
  {
    if n > 0 {
      ZeroWordBytes(m, p + 1, n - 1);
      assert m[p..p + n] == [m[p]] + m[p + 1..p + n];
    }
  }

  /** Skips `zeros` bytes of the stretch `p..p + n`, which are all zero, and writes the others,
      if there are any. */
  method SkipAndWrite(file: File, mem: array<byte>, p: nat, zeros: nat, n: nat, storedSkips: nat, ghost c: seq<byte>)
    returns (skips: nat)
    requires zeros <= n && p + n <= mem.Length && mem[p..p + zeros] == Zeros(zeros)
    requires Holds(file.data, file.pos, c, storedSkips)
    modifies file
    ensures Holds(file.data, file.pos, c + mem[p..p + n], skips) && skips <= storedSkips + n
    ensures zeros == 0 && storedSkips == 0 ==> skips == 0
  {
    skips := storedSkips + zeros;
    HoldsSkip(file.data, file.pos, c, storedSkips, zeros);
    ghost var c', rest := c + Zeros(zeros), mem[p + zeros..p + n];
    assert c' + rest == c + mem[p..p + n] by {
      assert mem[p..p + n] == mem[p..p + zeros] + rest;
    }
    if zeros != n {
      ghost var data, pos := file.data, file.pos;
      file.SeekForward(skips);
      file.Write(mem, p + zeros, n - zeros);
      HoldsWrite(data, pos, c', skips, rest, file.data);
      skips := 0;
    }
  }

  /** LZ4IO_fwriteSparse.  The counter of owed zeros stays within 32 bits as long as no buffer
      is larger than 1 GB. */
  method FwriteSparse(file: File, mem: array<byte>, buffer: nat, bufferSize: nat, storedSkips: nat,
                      sparseFileSupport: bool, ghost c: seq<byte>)
    returns (skips: nat)
    requires buffer + bufferSize <= mem.Length && Holds(file.data, file.pos, c, storedSkips)
    requires !sparseFileSupport ==> storedSkips == 0
    modifies file
    ensures Holds(file.data, file.pos, c + mem[buffer..buffer + bufferSize], skips)
    ensures !sparseFileSupport ==> skips == 0
    ensures storedSkips <= 2 * ONE_GB && bufferSize <= ONE_GB ==> skips <= 2 * ONE_GB
  {
    hide Holds;
    if !sparseFileSupport {
      skips := SkipAndWrite(file, mem, buffer, 0, bufferSize, 0, c);
      return;
    }
    skips := storedSkips;
    if skips > ONE_GB {
      HoldsSeek(file.data, file.pos, c, skips, ONE_GB);
      file.SeekForward(ONE_GB);
      skips := skips - ONE_GB;
    }
    skips := WriteSegments(file, mem, buffer, bufferSize / SIZE_T, skips, c);
    var p := buffer + SIZE_T * (bufferSize / SIZE_T);
    if bufferSize % SIZE_T != 0 {
      var restSize := bufferSize % SIZE_T;
      var nb := LeadingZeroBytes(mem, p, restSize);
      ContentGrows(c, mem[..], buffer, p, p + restSize);
      skips := SkipAndWrite(file, mem, p, nb, restSize, skips, c + mem[buffer..p]);
    }
  }

  lemma HoldsSeek(data: seq<byte>, pos: nat, c: seq<byte>, skips: nat, n: nat)
    requires Holds(data, pos, c, skips) && n < skips
    ensures Holds(data, pos + n, c, skips - n)
  {
  }

  lemma ContentGrows(c: seq<byte>, m: seq<byte>, a: nat, p: nat, q: nat)
    requires a <= p <= q <= |m|
    ensures (c + m[a..p]) + m[p..q] == c + m[a..q]
  {
    assert m[a..q] == m[a..p] + m[p..q];
  }

  /** The whole words of a buffer, in segments of 32 KB. */
  method WriteSegments(file: File, mem: array<byte>, buffer: nat, words: nat, storedSkips: nat, ghost c: seq<byte>)
    returns (skips: nat)
    requires buffer + SIZE_T * words <= mem.Length && Holds(file.data, file.pos, c, storedSkips)
    modifies file
    ensures Holds(file.data, file.pos, c + mem[buffer..buffer + SIZE_T * words], skips)
    ensures skips <= storedSkips + SIZE_T * words
  {
    hide Holds;
    skips := storedSkips;
    var bufferSizeT := words;
    var p, bufferTEnd := buffer, buffer + SIZE_T * words;
    assert c + mem[buffer..p] == c;
    while p < bufferTEnd
      invariant buffer <= p <= bufferTEnd && bufferTEnd - p == SIZE_T * bufferSizeT
      invariant Holds(file.data, file.pos, c + mem[buffer..p], skips) && skips <= storedSkips + (p - buffer)
    {
      var seg0SizeT := SEGMENT_SIZE / SIZE_T;
      if seg0SizeT > bufferSizeT {
        seg0SizeT := bufferSizeT;
      }
      bufferSizeT := bufferSizeT - seg0SizeT;
      var nb0T := LeadingZeroWords(mem, p, seg0SizeT);
      ContentGrows(c, mem[..], buffer, p, p + SIZE_T * seg0SizeT);
      skips := SkipAndWrite(file, mem, p, SIZE_T * nb0T, SIZE_T * seg0SizeT, skips, c + mem[buffer..p]);
      p := p + SIZE_T * seg0SizeT;
    }
  }

  method LeadingZeroBytes(mem: array<byte>, p: nat, n: nat) returns (nb: nat)
    requires p + n <= mem.Length
    ensures nb <= n && mem[p..p + nb] == Zeros(nb)
  {
    nb := 0;
    while nb < n && mem[p + nb] == 0
      invariant nb <= n && mem[p..p + nb] == Zeros(nb)
    {
      assert mem[p..p + nb + 1] == mem[p..p + nb] + [mem[p + nb]];
      nb := nb + 1;
    }
  }

  /** LZ4IO_fwriteSparseEnd: the last owed zero is written, so that the file gets its length. */
  method FwriteSparseEnd(file: File, storedSkips: nat, ghost c: seq<byte>)
    requires Holds(file.data, file.pos, c, storedSkips)
    modifies file
    ensures file.data == c
  {
    if storedSkips > 0 {
      file.SeekForward(storedSkips - 1);
      var lastZeroByte := new byte[1](i => 0);
      file.Write(lastZeroByte, 0, 1);
      assert lastZeroByte[0..1] == [0];
    }
  }

  /** The use of both: buffers of at most 1 GB, one after the other, then the end. */
  method WriteAll(mem: array<byte>, buffers: seq<(nat, nat)>, sparseFileSupport: bool) returns (file: File)
    requires forall b :: b in buffers ==> b.0 + b.1 <= mem.Length && b.1 <= ONE_GB
    ensures file.data == Content(mem[..], buffers)
  {
    file := new File();
    var storedSkips: nat, k: nat := 0, 0;
    while k < |buffers|
      invariant k <= |buffers| && fresh(file) && storedSkips <= 2 * ONE_GB && (!sparseFileSupport ==> storedSkips == 0)
      invariant Holds(file.data, file.pos, Content(mem[..], buffers[..k]), storedSkips)
    {
      var b := buffers[k];
      assert buffers[..k + 1][..k] == buffers[..k];
      storedSkips := FwriteSparse(file, mem, b.0, b.1, storedSkips, sparseFileSupport, Content(mem[..], buffers[..k]));
      k := k + 1;
    }
    assert buffers[..k] == buffers;
    FwriteSparseEnd(file, storedSkips, Content(mem[..], buffers));
  }

  /** The bytes of the buffers, one after the other. */
  function Content(m: seq<byte>, buffers: seq<(nat, nat)>): seq<byte>
    requires forall b :: b in buffers ==> b.0 + b.1 <= |m|
  {
    if buffers == [] then []
    else
      var b := buffers[|buffers| - 1];
      Content(m, buffers[..|buffers| - 1]) + m[b.0..b.0 + b.1]
  }
}
