/** Buffers and buffer chains of the response body, on the heap as the filters see them.

    A buffer is a window into memory, into a file, or into both; what it shows is its `Piece`. */
module RangeBuffers {
  /** What the next filter can see of a buffer. */
  datatype Piece = Piece(data: string, hasBytes: bool, flush: bool, lastBuf: bool, sync: bool)
  {
    /** ngx_buf_special: a flag and no place for data */
    predicate Special() {
      (flush || lastBuf || sync) && !hasBytes
    }
  }

  /** What lies from `p` to `q` of a memory or a file.  Nothing is known of what lies outside; a NUL
      stands for each such byte. */
  function Read(s: string, p: int, q: int): (r: string)
    requires p <= q
    ensures |r| == q - p && (0 <= p && q <= |s| ==> r == s[p..q])
  {
    if 0 <= p && q <= |s| then s[p..q] else seq(q - p, _ => '\0')
  }

  class Buf {
    const mem: string
    const file: string
    var pos: int
    var last: int
    var filePos: int
    var fileLast: int
    var inMemory: bool
    var inFile: bool
    var flush: bool
    var lastBuf: bool
    var sync: bool

    constructor (mem: string, pos: int, last: int, file: string, filePos: int, fileLast: int, inMemory: bool,
                 inFile: bool)
      ensures this.mem == mem && this.pos == pos && this.last == last && this.inMemory == inMemory
      ensures this.file == file && this.filePos == filePos && this.fileLast == fileLast && this.inFile == inFile
      ensures !flush && !lastBuf && !sync
    {
      this.mem, this.pos, this.last, this.inMemory := mem, pos, last, inMemory;
      this.file, this.filePos, this.fileLast, this.inFile := file, filePos, fileLast, inFile;
      flush, lastBuf, sync := false, false, false;
    }

    /** The windows do not end before they start. */
    predicate Ordered()
      reads this
    {
      pos <= last && filePos <= fileLast
    }

    /** The windows lie inside what they show; a buffer that has both shows the same bytes in both,
        and one that has neither shows none. */
    ghost predicate Valid()
      reads this
    {
      && 0 <= pos <= last <= |mem| && 0 <= filePos <= fileLast <= |file|
      && (inMemory && inFile ==> mem[pos..last] == file[filePos..fileLast])
      && (!inMemory && !inFile ==> filePos == fileLast)
    }

    ghost function Data(): string
      reads this
      requires Ordered()
    {
      if inMemory then Read(mem, pos, last) else Read(file, filePos, fileLast)
    }

    ghost function View(): (p: Piece)
      reads this
      requires Ordered()
      ensures |p.data| == Size() && (p.Special() <==> Special())
    {
      Piece(Data(), inMemory || inFile, flush, lastBuf, sync)
    }

    /** ngx_buf_size */
    function Size(): int
      reads this
    {
      if inMemory then last - pos else fileLast - filePos
    }

    /** ngx_buf_special */
    predicate Special()
      reads this
    {
      (flush || lastBuf || sync) && !inMemory && !inFile
    }
  }

  class Link {
    var buf: Buf
    var next: Link?

    constructor (buf: Buf)
      ensures this.buf == buf && next == null
    {
      this.buf, next := buf, null;
    }
  }

  function LinkAt(links: seq<Link>, i: nat): Link? {
    if i < |links| then links[i] else null
  }

  /** `links` are the links of the chain that starts at `head`, in order. */
  ghost predicate IsChain(head: Link?, links: seq<Link>)
    reads links`next
  {
    head == LinkAt(links, 0) && forall i {:trigger links[i].next} :: 0 <= i < |links| ==>
      links[i].next == LinkAt(links, i + 1)
  }

  ghost predicate Distinct<T>(s: seq<T>) {
    forall i, j :: 0 <= i < j < |s| ==> s[i] != s[j]
  }

  /** `bufs` are the buffers of the links, in order. */
  ghost predicate Carries(links: seq<Link>, bufs: seq<Buf>)
    reads links`buf
  {
    |links| == |bufs| && forall i :: 0 <= i < |links| ==> links[i].buf == bufs[i]
  }

  /** The buffers are proper windows and look like `pieces`. */
  ghost predicate Shows(bufs: seq<Buf>, pieces: seq<Piece>)
    reads bufs
  {
    && |bufs| == |pieces|
    && forall i :: 0 <= i < |bufs| ==> bufs[i].Valid() && bufs[i].View() == pieces[i]
  }

  lemma SubSlice(s: string, p: int, q: int, lo: int, hi: int)
    requires 0 <= p <= q <= |s| && 0 <= lo <= hi <= q - p
    ensures s[p..q][lo..hi] == s[p + lo..p + hi]
  {
    assert forall i :: 0 <= i < hi - lo ==> s[p..q][lo..hi][i] == s[p + lo + i];
  }

  /** The bytes of a sequence of pieces, one after the other. */
  function DataOf(pieces: seq<Piece>): string {
    if pieces == [] then "" else DataOf(pieces[..|pieces| - 1]) + pieces[|pieces| - 1].data
  }

  lemma {:induction false} DataOfConcat(a: seq<Piece>, b: seq<Piece>)
    ensures DataOf(a + b) == DataOf(a) + DataOf(b)
    decreases |b|
  {
    if b == [] {
      assert a + b == a;
    } else {
      assert (a + b)[..|a + b| - 1] == a + b[..|b| - 1];
      DataOfConcat(a, b[..|b| - 1]);
    }
  }

  lemma DataOfSnoc(a: seq<Piece>, p: Piece)
    ensures DataOf(a + [p]) == DataOf(a) + p.data
  {
    assert (a + [p])[..|a|] == a;
  }
}
