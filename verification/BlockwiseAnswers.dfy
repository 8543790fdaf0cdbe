/** Which block answers a request. */
module BlockwiseAnswers {
  // The server of er-coap-12-engine.c in apps/er-coap-12, for any block of any size.

  import opened Division
  import opened Blockwise

  /** Block k of a string is the window at k * size, and there is a block k exactly if it is the first or starts inside. */
  lemma {:induction false} BlockAt(s: string, size: nat, k: nat)
    requires size > 0
    ensures k < |Blocks(s, size)| <==> k == 0 || k * size < |s|
    ensures k < |Blocks(s, size)| ==> Blocks(s, size)[k] == Window(s, k * size, size)
    decreases |s|
  {
    if |s| > size && k > 0 {
      assert k * size == (k - 1) * size + size;
      BlockAt(s[size..], size, k - 1);
      WindowBehind(s, size, (k - 1) * size);
    } else if k > 0 {
      assert k * size >= size;
    }
  }

  lemma WindowBehind(s: string, size: nat, offset: nat)
    requires size < |s|
    ensures Window(s[size..], offset, size) == Window(s, offset + size, size)
  {
  }

  /** The last block reaches the end of the string. */
  lemma LastReachesEnd(s: string, size: nat, k: nat)
    requires size > 0 && k < |Blocks(s, size)|
    ensures k == |Blocks(s, size)| - 1 <==> |s| <= k * size + size
  {
    BlockAt(s, size, k + 1);
    assert (k + 1) * size == k * size + size;
  }

  /** A request for a block of a size that the server can send is answered with that block; `more` is missing exactly in
    * the last block, unless a resource with attributes fills it.  Requests behind the last block are errors. */
  lemma AnsweredWithBlock(rs: seq<Resource>, num: nat, size: nat, chunk: nat)
    requires 16 <= size <= chunk && rs != []
    ensures var blocks, r := Blocks(Listing(rs), size), Answer(rs, Block(num, size), chunk);
            && (r.Content? <==> num < |blocks|) && r.num == num
            && (num < |blocks| ==> r.payload == blocks[num] && (r.more <==> num < |blocks| - 1 || Overshoots(rs, size)))
            && (num >= |blocks| ==> r.payload == OUT_OF_SCOPE[..Least(|OUT_OF_SCOPE|, size)])
  {
    hide Listing, Blocks;
    NotEmpty(rs);
    var s := Listing(rs);
    BlockAt(s, size, num);
    if num < |Blocks(s, size)| {
      LastReachesEnd(s, size, num);
      LastMore(rs, num, size);
    }
  }

  lemma LastMore(rs: seq<Resource>, num: nat, size: nat)
    requires size > 0 && rs != [] && num * size < |Listing(rs)|
    ensures Ends(rs, num * size, size) <==> |Listing(rs)| <= num * size + size && !Overshoots(rs, size)
  {
    hide Listing;
    var n := |Listing(rs)|;
    if n <= num * size + size {
      Remainders(num, size, n - num * size);
    }
  }

  /** The first answer is the first block, whatever size was asked for, or none. */
  lemma FirstAnswer(rs: seq<Resource>, request: BlockRequest, chunk: nat)
    requires chunk >= 16 && (request.Block? ==> request.num == 0 && request.size >= 16)
    ensures var size := if request.NoBlock? then chunk else Least(request.size, chunk);
            Answer(rs, request, chunk).payload == Blocks(Listing(rs), size)[0]
  {
    hide Listing;
    var size := if request.NoBlock? then chunk else Least(request.size, chunk);
    BlockAt(Listing(rs), size, 0);
    if rs != [] {
      NotEmpty(rs);
    }
  }

  // ---------------------------------------------------------------- blocks larger than the server's

  /** The payloads of the first n answers of a client that counts blocks of its own size. */
  function Collected(rs: seq<Resource>, size: nat, chunk: nat, n: nat): string {
    if n == 0 then "" else Collected(rs, size, chunk, n - 1) + Answer(rs, Block(n - 1, size), chunk).payload
  }

  lemma CutWindow(s: string, at: nat, size: nat, chunk: nat)
    requires size > 0 && chunk > 0
    ensures var b := Window(s, at, size); Window(s, at, Least(size, chunk)) == b[..Least(|b|, chunk)]
    ensures Window(s, at, Least(size, chunk)) == "" <==> |s| <= at
  {
  }

  /** The server places a block by the size that was asked for, and cuts it to its own. */
  lemma CutBlock(rs: seq<Resource>, num: nat, size: nat, chunk: nat)
    requires 16 <= size && 16 <= chunk && num < |Blocks(Listing(rs), size)|
    ensures var b := Blocks(Listing(rs), size)[num];
            Answer(rs, Block(num, size), chunk).payload == b[..Least(|b|, chunk)]
  {
    hide Listing, Blocks, Window, Ends;
    BlockAt(Listing(rs), size, num);
    CutWindow(Listing(rs), num * size, size, chunk);
    if rs != [] {
      NotEmpty(rs);
    }
  }

  lemma {:induction false} CollectedIsShorter(rs: seq<Resource>, size: nat, chunk: nat, n: nat)
    requires 16 <= size && 16 <= chunk && n <= |Blocks(Listing(rs), size)|
    ensures |Collected(rs, size, chunk, n)| <= |Concat(Blocks(Listing(rs), size)[..n])|
    ensures n > 0 && size > chunk && |Listing(rs)| > chunk ==> |Collected(rs, size, chunk, n)| < |Concat(Blocks(Listing(rs), size)[..n])|
    decreases n
  {
    hide Blocks, Listing;
    if n > 0 {
      var blocks := Blocks(Listing(rs), size);
      CollectedIsShorter(rs, size, chunk, n - 1);
      CutBlock(rs, n - 1, size, chunk);
      BlockAt(Listing(rs), size, n - 1);
      assert blocks[..n] == blocks[..n - 1] + [blocks[n - 1]];
      ConcatMore(blocks[..n - 1], [blocks[n - 1]]);
      ConcatOne(blocks[n - 1]);
    }
  }

  lemma ConcatOne(b: string)
    ensures Concat([b]) == b
  {
  }

  lemma WholeBlock(rs: seq<Resource>, num: nat, size: nat, chunk: nat)
    requires 16 <= size && 16 <= chunk && num < |Blocks(Listing(rs), size)| && (size <= chunk || |Listing(rs)| <= chunk)
    ensures Answer(rs, Block(num, size), chunk).payload == Blocks(Listing(rs), size)[num]
  {
    hide Blocks, Listing, Answer;
    CutBlock(rs, num, size, chunk);
    BlockAt(Listing(rs), size, num);
  }

  lemma {:induction false} CollectedIs(rs: seq<Resource>, size: nat, chunk: nat, n: nat)
    requires 16 <= size && 16 <= chunk && n <= |Blocks(Listing(rs), size)| && (size <= chunk || |Listing(rs)| <= chunk)
    ensures Collected(rs, size, chunk, n) == Concat(Blocks(Listing(rs), size)[..n])
    decreases n
  {
    hide Blocks, Listing, Answer, Concat;
    if n == 0 {
      ConcatNone();
    } else {
      var blocks := Blocks(Listing(rs), size);
      CollectedIs(rs, size, chunk, n - 1);
      WholeBlock(rs, n - 1, size, chunk);
      assert blocks[..n] == blocks[..n - 1] + [blocks[n - 1]];
      ConcatMore(blocks[..n - 1], [blocks[n - 1]]);
      ConcatOne(blocks[n - 1]);
    }
  }

  lemma ConcatNone()
    ensures Concat([]) == ""
  {
  }

  /** A client that asks for all blocks by their size gets the whole listing if and only if the server can send blocks of
    * that size, or the listing fits into one of the server's. */
  lemma CollectedIff(rs: seq<Resource>, size: nat, chunk: nat)
    requires 16 <= size && 16 <= chunk
    ensures Collected(rs, size, chunk, |Blocks(Listing(rs), size)|) == Listing(rs) <==> size <= chunk || |Listing(rs)| <= chunk
  {
    hide Listing;
    var blocks := Blocks(Listing(rs), size);
    ConcatBlocks(Listing(rs), size);
    assert blocks[..|blocks|] == blocks;
    if size <= chunk || |Listing(rs)| <= chunk {
      CollectedIs(rs, size, chunk, |blocks|);
    } else {
      CollectedIsShorter(rs, size, chunk, |blocks|);
    }
  }
}
