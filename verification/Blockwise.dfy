/** The sliced resource listing and Block2 (apps/er-coap-12). */
module Blockwise {
  // The handler that prints a slice of the listing, the server's Block2 option, and the client's loop.

  import opened Division

  datatype Resource = Resource(url: string, attributes: string)

  // ---------------------------------------------------------------- the listing

  /** A link in the format of section 2 of RFC 6690. */
  function Entry(r: Resource): (s: string)
    ensures |s| > 0
  {
    "</" + r.url + ">" + if r.attributes == "" then "" else ";" + r.attributes
  }

  function Listing(rs: seq<Resource>): string {
    if rs == [] then ""
    else
      var n := |rs| - 1;
      Listing(rs[..n]) + (if n > 0 then "," else "") + Entry(rs[n])
  }

  /** The bytes of a string from `offset` on, at most `size` of them. */
  function Window(s: string, offset: nat, size: nat): (w: string)
    ensures |w| == if |s| <= offset then 0 else if |s| <= offset + size then |s| - offset else size
  {
    if |s| <= offset then "" else if |s| <= offset + size then s[offset..] else s[offset..offset + size]
  }

  lemma WindowChar(s: string, c: char, offset: nat, size: nat)
    ensures Window(s + [c], offset, size) ==
            if offset <= |s| < offset + size then Window(s, offset, size) + [c] else Window(s, offset, size)
  {
    var t := s + [c];
    if offset <= |s| < offset + size {
      assert t[offset..] == s[offset..] + [c];
    }
  }

  /** The part of t that a window over s + t shows. */
  lemma WindowString(s: string, t: string, offset: nat, size: nat)
    ensures var skip := if |s| < offset then offset - |s| else 0; var room := size - |Window(s, offset, size)|;
            Window(s + t, offset, size) ==
            Window(s, offset, size) + if skip >= |t| then "" else if |t| - skip <= room then t[skip..] else t[skip..skip + room]
  {
    var u := s + t;
    var skip := if |s| < offset then offset - |s| else 0;
    var room := size - |Window(s, offset, size)|;
    if |u| > offset {
      if |s| <= offset {
        assert u[offset..] == t[skip..];
        assert |u| > offset + size ==> u[offset..offset + size] == t[skip..skip + size];
      } else if |s| <= offset + size {
        assert u[offset..] == s[offset..] + t;
        assert |u| > offset + size ==> u[offset..offset + size] == s[offset..] + t[..room];
      } else {
        assert room == 0;
        assert u[offset..offset + size] == s[offset..offset + size];
      }
    }
  }

  /** A window that is full shows the same of any longer string. */
  lemma WindowFull(s: string, t: string, offset: nat, size: nat)
    requires |s| >= offset + size
    ensures Window(s + t, offset, size) == Window(s, offset, size)
  {
    WindowString(s, t, offset, size);
  }

  // ---------------------------------------------------------------- the handler

  /** The state of printing: the position in the listing and in the buffer. */
  class Printer {
    const buffer: array<char>
    const offset: nat
    const size: nat
    var strpos: nat
    var bufpos: nat
    ghost var printed: string

    /** The buffer shows the window of what has been printed; a string that did not fit has moved bufpos
      * beyond the window. */
    ghost predicate Valid()
      reads this, buffer
    {
      && 0 < size < buffer.Length && strpos == |printed|
      && |Window(printed, offset, size)| <= bufpos && (bufpos < size ==> bufpos == |Window(printed, offset, size)|)
      && buffer[..|Window(printed, offset, size)|] == Window(printed, offset, size)
    }

    /** Nothing has moved beyond the window. */
    ghost predicate Exact()
      reads this
    {
      bufpos == |Window(printed, offset, size)|
    }

    constructor (buffer: array<char>, offset: nat, size: nat)
      requires 0 < size < buffer.Length
      ensures Valid() && Exact() && printed == "" && this.buffer == buffer && this.offset == offset && this.size == size
    {
      this.buffer, this.offset, this.size := buffer, offset, size;
      strpos, bufpos, printed := 0, 0, "";
    }

    method PutChar(c: char)
      requires Valid() && Exact()
      modifies this`strpos, this`bufpos, this`printed, buffer
      ensures Valid() && Exact() && printed == old(printed) + [c]
    {
      WindowChar(printed, c, offset, size);
      if strpos >= offset && bufpos < size {
        buffer[bufpos] := c;
        bufpos := bufpos + 1;
      }
      strpos := strpos + 1;
      printed := printed + [c];
    }

    /** snprintf of the rest of a string: it writes what fits, and returns how long the rest is. */
    method Print(s: string)
      requires Valid() && Exact()
      modifies this`strpos, this`bufpos, this`printed, buffer
      ensures Valid() && printed == old(printed) + s
      ensures bufpos >= size <==> old(bufpos) == size || |printed| >= offset + size
      ensures bufpos < size ==> Exact()
    {
      ghost var w := Window(printed, offset, size);
      WindowString(printed, s, offset, size);
      if strpos + |s| > offset {
        var skip := if offset > strpos then offset - strpos else 0;
        var room := size - bufpos;
        var n := if |s| - skip <= room then |s| - skip else room;
        forall i | 0 <= i < n {
          buffer[bufpos + i] := s[skip + i];
        }
        assert buffer[..|w| + n] == w + s[skip..skip + n];
        assert skip + n == |s| ==> s[skip..skip + n] == s[skip..];
        bufpos := bufpos + (|s| - skip);
      }
      strpos := strpos + |s|;
      printed := printed + s;
    }

    /** The separator, and the link up to its address; `full` when no more fits. */
    method PrintAddress(url: string) returns (full: bool)
      requires Valid() && Exact() && |printed| <= offset + size
      modifies this`strpos, this`bufpos, this`printed, buffer
      ensures Valid() && printed == old(printed) + (if old(printed) == "" then "" else ",") + ("</" + url)
      ensures full == (bufpos >= size) == (|printed| >= offset + size)
      ensures !full ==> Exact()
    {
      hide Window;
      ghost var before := printed;
      if strpos > 0 {
        PutChar(',');
      }
      PutChar('<');
      PutChar('/');
      assert printed == before + (if before == "" then "" else ",") + "</";
      FullAt(printed, offset, size);
      Print(url);
      full := bufpos >= size;
    }

    /** One resource of the list.  Printing stops when the buffer is full, though not when a resource
      * without attributes fills it exactly. */
    method PrintResource(r: Resource) returns (full: bool)
      requires Valid() && Exact() && |printed| <= offset + size
      modifies this`strpos, this`bufpos, this`printed, buffer
      ensures var all := old(printed) + (if old(printed) == "" then "" else ",") + Entry(r);
              && Valid() && printed <= all
              && (full <==> |all| > offset + size || (|all| == offset + size && r.attributes != ""))
              && (if full then |printed| >= offset + size else printed == all && Exact())
      ensures full ==> bufpos >= size
    {
      hide Window;
      ghost var before := printed + (if printed == "" then "" else ",");
      full := PrintAddress(r.url);
      if full {
        assert before + Entry(r) == printed + (">" + if r.attributes == "" then "" else ";" + r.attributes);
        return;
      }
      PutChar('>');
      assert r.attributes == "" ==> printed == before + Entry(r);
      FullAt(printed, offset, size);
      if r.attributes != "" {
        PutChar(';');
        FullAt(printed, offset, size);
        Print(r.attributes);
        assert printed == before + Entry(r);
        if bufpos >= size {
          return true;
        }
      }
      full := bufpos >= size && strpos - bufpos > offset;
    }

    /** The list of resources, until the buffer is full. */
    method PrintAll(rs: seq<Resource>) returns (full: bool)
      requires Valid() && Exact() && printed == ""
      modifies this`strpos, this`bufpos, this`printed, buffer
      ensures Valid() && full == !Ends(rs, offset, size) && printed <= Listing(rs)
      ensures if full then bufpos >= size && |printed| >= offset + size else Exact() && printed == Listing(rs)
    {
      hide Window;
      full := false;
      var i := 0;
      while i < |rs| && !full
        invariant i <= |rs| && Valid()
        invariant !full ==> Exact() && printed == Listing(rs[..i]) && Ends(rs[..i], offset, size)
        invariant full ==> bufpos >= size && |printed| >= offset + size && printed <= Listing(rs) && !Ends(rs, offset, size)
        decreases |rs| - i, if full then 0 else 1
      {
        ListingStep(rs, i);
        ListingGrows(rs, i + 1);
        full := PrintResource(rs[i]);
        if full {
          StaysUnfinished(rs, i, offset, size);
        } else {
          i := i + 1;
        }
      }
      assert rs[..|rs|] == rs;
    }
  }

  lemma FullAt(s: string, offset: nat, size: nat)
    ensures |Window(s, offset, size)| >= size <==> |s| >= offset + size || size == 0
    ensures |Window(s, offset, size)| <= size
  {
  }

  lemma {:induction false} ListingGrows(rs: seq<Resource>, i: nat)
    requires i <= |rs|
    ensures Listing(rs[..i]) <= Listing(rs)
    decreases |rs|
  {
    if i == |rs| {
      assert rs[..i] == rs;
    } else {
      var n := |rs| - 1;
      assert rs[..n][..i] == rs[..i];
      ListingGrows(rs[..n], i);
    }
  }

  lemma ListingStep(rs: seq<Resource>, i: nat)
    requires i < |rs|
    ensures Listing(rs[..i + 1]) == Listing(rs[..i]) + (if Listing(rs[..i]) == "" then "" else ",") + Entry(rs[i])
  {
    assert rs[..i + 1][..i] == rs[..i];
  }

  /** The listing ends in the window that starts at `offset`: it does not fill the window, or a resource
    * without attributes fills it exactly. */
  predicate Ends(rs: seq<Resource>, offset: nat, size: nat) {
    |Listing(rs)| < offset + size || (|Listing(rs)| == offset + size && (rs == [] || rs[|rs| - 1].attributes == ""))
  }

  /** well_known_core_handler: the length of the payload in the buffer, whether the offset lies outside the
    * listing, and the new offset. */
  method WellKnownCore(rs: seq<Resource>, buffer: array<char>, offset: nat, size: nat)
      returns (length: nat, outOfScope: bool, next: int)
    requires 0 < size < buffer.Length
    modifies buffer
    ensures var w := Window(Listing(rs), offset, size);
            && |w| <= length && (length < size ==> |w| == length) && buffer[..|w|] == w
            && (outOfScope <==> w == "" && rs != [])
            && next == (if Ends(rs, offset, size) then -1 else offset + size)
            && (next == -1 ==> length == |w|)
  {
    var p := new Printer(buffer, offset, size);
    var full := p.PrintAll(rs);
    if full {
      WindowFull(p.printed, Listing(rs)[|p.printed|..], offset, size);
      assert p.printed + Listing(rs)[|p.printed|..] == Listing(rs);
    }
    length, outOfScope := p.bufpos, p.bufpos == 0 && p.strpos > 0;
    next := if full then offset + size else -1;
  }

  /** If a prefix of the list has filled the window beyond its end, the whole list has. */
  lemma StaysUnfinished(rs: seq<Resource>, i: nat, offset: nat, size: nat)
    requires i < |rs|
    requires var n := |Listing(rs[..i + 1])|; n > offset + size || (n == offset + size && rs[i].attributes != "")
    ensures !Ends(rs, offset, size)
  {
    ListingGrows(rs, i + 1);
    if i + 1 < |rs| {
      ListingStep(rs, i + 1);
      ListingGrows(rs, i + 2);
    } else {
      assert rs[..i + 1] == rs;
    }
  }

  // ---------------------------------------------------------------- the server

  datatype BlockRequest = NoBlock | Block(num: nat, size: nat)

  datatype Response = Content(num: nat, more: bool, payload: string) | BadOption(num: nat, more: bool, payload: string)

  const OUT_OF_SCOPE := "BlockOutOfScope"

  /** What the server answers: the window of the listing at the requested block.  Beyond the end it is an
    * error, with a message for its payload. */
  function Answer(rs: seq<Resource>, request: BlockRequest, chunk: nat): Response {
    var size := if request.NoBlock? || request.size > chunk then chunk else request.size;
    var offset := if request.NoBlock? then 0 else request.num * request.size;
    var num := if request.NoBlock? then 0 else request.num;
    var w := Window(Listing(rs), offset, size);
    if w == "" && rs != [] then BadOption(num, !Ends(rs, offset, size), if |OUT_OF_SCOPE| > size then OUT_OF_SCOPE[..size] else OUT_OF_SCOPE)
    else Content(num, !Ends(rs, offset, size), w)
  }

  function Least(a: nat, b: nat): nat { if a < b then a else b }

  /** coap_receive, for a GET of the listing. */
  method Serve(rs: seq<Resource>, request: BlockRequest, chunk: nat) returns (r: Response)
    requires 16 <= chunk && (request.Block? ==> request.size >= 16)
    ensures r == Answer(rs, request, chunk)
  {
    var buffer := new char[chunk + 1];
    var size, offset := chunk, 0;
    if request.Block? {
      offset := request.num * request.size;
      size := Least(request.size, chunk);
    }
    var length, outOfScope, next := WellKnownCore(rs, buffer, offset, size);
    ghost var w := Window(Listing(rs), offset, size);
    var payload := if outOfScope then OUT_OF_SCOPE else buffer[..Least(chunk, length)];
    var more;
    var num := 0;
    if request.Block? {
      num := request.num;
      more := next != -1 || |payload| > size;
      if |payload| > size {
        payload := payload[..size];
      }
    } else {
      more := next != -1;
      payload := payload[..Least(|payload|, chunk)];
    }
    r := if outOfScope then BadOption(num, more, payload) else Content(num, more, payload);
  }

  // ---------------------------------------------------------------- the client

  /** A string cut into blocks; the last one may be shorter. */
  function Blocks(s: string, size: nat): (blocks: seq<string>)
    requires size > 0
    decreases |s|
  {
    if |s| <= size then [s] else [s[..size]] + Blocks(s[size..], size)
  }

  function Concat(blocks: seq<string>): string {
    if blocks == [] then "" else blocks[0] + Concat(blocks[1..])
  }

  lemma {:induction false} ConcatBlocks(s: string, size: nat)
    requires size > 0
    ensures Concat(Blocks(s, size)) == s
    decreases |s|
  {
    if |s| > size {
      ConcatBlocks(s[size..], size);
      assert ([s[..size]] + Blocks(s[size..], size))[1..] == Blocks(s[size..], size);
    }
  }

  function Payloads(rs: seq<Response>): (p: seq<string>)
    ensures |p| == |rs| && forall i | 0 <= i < |p| :: p[i] == rs[i].payload
  {
    seq(|rs|, i requires 0 <= i < |rs| => rs[i].payload)
  }

  /** The listing fills its last block, and the last resource has attributes: then the server says that
    * there is more. */
  predicate Overshoots(rs: seq<Resource>, chunk: nat)
    requires chunk > 0
  {
    rs != [] && |Listing(rs)| % chunk == 0 && rs[|rs| - 1].attributes != ""
  }

  /** What the client passes to its callback, if no message is lost. */
  function Expected(rs: seq<Resource>, chunk: nat): seq<string>
    requires chunk > 0
  {
    Blocks(Listing(rs), chunk) + if Overshoots(rs, chunk) then [OUT_OF_SCOPE] else []
  }

  const COAP_MAX_ATTEMPTS := 4

  function Pow2(k: nat): (p: nat)
    ensures p >= 1
  {
    if k == 0 then 1 else 2 * Pow2(k - 1)
  }

  /** The block sizes of section 2.2 of RFC 7959, and 2048, which the program accepts. */
  predicate BlockSize(size: nat) {
    exists e: nat | e <= 7 :: size == 16 * Pow2(e)
  }

  /** Where the transfer is before block k, at position `at` of the listing. */
  predicate Progress(rs: seq<Resource>, chunk: nat, done: seq<string>, k: nat, at: nat)
    requires chunk > 0
  {
    && at == k * chunk <= |Listing(rs)| && |done| == k
    && if at < |Listing(rs)| || k == 0 then done + Blocks(Listing(rs)[at..], chunk) == Blocks(Listing(rs), chunk)
       else done == Blocks(Listing(rs), chunk) && Overshoots(rs, chunk)
  }

  lemma Remainders(k: nat, chunk: nat, r: nat)
    requires 0 < r <= chunk
    ensures (k * chunk + r) % chunk == if r == chunk then 0 else r
    ensures (k + 1) * chunk == k * chunk + chunk
  {
    assert (k + 1) * chunk == k * chunk + chunk;
    if r < chunk {
      RemainderIs(k, chunk, r);
    } else {
      RemainderIs(k + 1, chunk, 0);
    }
  }

  /** Block k has been received, and the server says that there is more. */
  lemma MoreBlocks(rs: seq<Resource>, chunk: nat, done: seq<string>, k: nat, at: nat, w: string)
    requires chunk > 0 && Progress(rs, chunk, done, k, at) && (at < |Listing(rs)| || k == 0)
    requires w == Window(Listing(rs), at, chunk) && !Ends(rs, at, chunk)
    ensures Progress(rs, chunk, done + [w], k + 1, at + chunk)
  {
    var s := Listing(rs);
    Remainders(k, chunk, chunk);
    if at + chunk < |s| {
      assert s[at..][..chunk] == w && s[at..][chunk..] == s[at + chunk..];
      assert done + Blocks(s[at..], chunk) == (done + [w]) + Blocks(s[at + chunk..], chunk);
    } else {
      assert s[at..] == w;
    }
  }

  /** Block k has been received, and it is the last one. */
  lemma LastBlock(rs: seq<Resource>, chunk: nat, done: seq<string>, k: nat, at: nat, w: string)
    requires chunk > 0 && Progress(rs, chunk, done, k, at) && (at < |Listing(rs)| || k == 0)
    requires w == Window(Listing(rs), at, chunk) && Ends(rs, at, chunk)
    ensures done + [w] == Expected(rs, chunk)
  {
    var s := Listing(rs);
    assert |s| <= at + chunk;
    assert s[at..] == w;
    assert Blocks(s[at..], chunk) == [w];
    if rs != [] {
      NotEmpty(rs);
      Remainders(k, chunk, |s| - at);
    }
    assert !Overshoots(rs, chunk);
  }

  lemma NotEmpty(rs: seq<Resource>)
    requires rs != []
    ensures Listing(rs) != ""
  {
  }

  lemma PrefixOfExpected(rs: seq<Resource>, chunk: nat, done: seq<string>, k: nat, at: nat)
    requires chunk > 0 && Progress(rs, chunk, done, k, at)
    ensures done <= Expected(rs, chunk)
  {
  }

  /** coap_blocking_request: asks for one block after another, until the server says that there is no
    * more, or an answer is lost. */
  method BlockingRequest(rs: seq<Resource>, chunk: nat) returns (delivered: seq<Response>, complete: bool)
    requires BlockSize(chunk) && 16 <= chunk && |Listing(rs)| < 0x10_0000 * chunk
    ensures forall i | 0 <= i < |delivered| :: delivered[i].num == i
    ensures if complete then Payloads(delivered) == Expected(rs, chunk) else Payloads(delivered) <= Expected(rs, chunk)
  {
    hide Blocks, Listing, Overshoots;
    var blockNum, blockErrors := 0, 0;
    ghost var at := 0;
    delivered, complete := [], false;
    assert Listing(rs)[0..] == Listing(rs);
    var again := true;
    while again
      invariant forall i | 0 <= i < |delivered| :: delivered[i].num == i
      invariant again ==> !complete && blockErrors == 0 && Progress(rs, chunk, Payloads(delivered), blockNum, at)
      invariant !again ==> complete && Payloads(delivered) == Expected(rs, chunk)
      decreases if again then |Listing(rs)| + chunk - at else 0
    {
      PrefixOfExpected(rs, chunk, Payloads(delivered), blockNum, at);
      var lost: bool := *;
      if lost {
        return;
      }
      var request := if blockNum > 0 then Block(blockNum, chunk) else NoBlock;
      var response := Serve(rs, request, chunk);
      var more := response.more;
      ghost var done := Payloads(delivered);
      if response.num == blockNum {
        delivered := delivered + [response];
        blockNum := blockNum + 1;
      } else {
        blockErrors := blockErrors + 1;
      }
      assert Payloads(delivered) == done + [response.payload];
      again := more && blockErrors < COAP_MAX_ATTEMPTS;
      complete := !again;
      OneAnswer(rs, chunk, done, blockNum - 1, at, response);
      at := at + chunk;
    }
  }

  /** The answer to the request for block k. */
  lemma OneAnswer(rs: seq<Resource>, chunk: nat, done: seq<string>, k: nat, at: nat, r: Response)
    requires 16 <= chunk && Progress(rs, chunk, done, k, at)
    requires r == Answer(rs, if k > 0 then Block(k, chunk) else NoBlock, chunk)
    ensures r.num == k
    ensures r.more ==> Progress(rs, chunk, done + [r.payload], k + 1, at + chunk)
    ensures !r.more ==> done + [r.payload] == Expected(rs, chunk)
  {
    hide Blocks, Listing, Overshoots;
    var w := Window(Listing(rs), at, chunk);
    if at < |Listing(rs)| || k == 0 {
      if w == "" && rs != [] {
        NotEmpty(rs);
      }
      if r.more {
        MoreBlocks(rs, chunk, done, k, at, w);
      } else {
        LastBlock(rs, chunk, done, k, at, w);
      }
    } else {
      OvershootsSome(rs, chunk);
    }
  }

  lemma OvershootsSome(rs: seq<Resource>, chunk: nat)
    requires chunk > 0 && Overshoots(rs, chunk)
    ensures rs != []
  {
  }

  lemma {:induction false} ConcatMore(a: seq<string>, b: seq<string>)
    ensures Concat(a + b) == Concat(a) + Concat(b)
    decreases |a|
  {
    if a == [] {
      assert a + b == b;
    } else {
      assert (a + b)[0] == a[0] && (a + b)[1..] == a[1..] + b;
      ConcatMore(a[1..], b);
      assert a[0] + (Concat(a[1..]) + Concat(b)) == (a[0] + Concat(a[1..])) + Concat(b);
    }
  }

  /** The chunks of a complete transfer are the listing if and only if it does not fill its last block
    * with a resource that has attributes at the end; otherwise the text of an error follows. */
  lemma TransferIff(rs: seq<Resource>, chunk: nat)
    requires chunk > 0
    ensures Concat(Expected(rs, chunk)) == Listing(rs) <==> !Overshoots(rs, chunk)
    ensures Overshoots(rs, chunk) ==> Concat(Expected(rs, chunk)) == Listing(rs) + OUT_OF_SCOPE
  {
    hide Overshoots, Listing;
    ConcatBlocks(Listing(rs), chunk);
    var extra := if Overshoots(rs, chunk) then [OUT_OF_SCOPE] else [];
    ConcatMore(Blocks(Listing(rs), chunk), extra);
    assert Concat([OUT_OF_SCOPE]) == OUT_OF_SCOPE + "" == OUT_OF_SCOPE;
  }
}
