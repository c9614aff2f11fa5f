/** The TSS response buffer (fwstitcher.c:18-21) and writeCallback
    (fwstitcher.c:241-251), which libcurl calls once per chunk of the reply.
    `content` is the whole allocation, `length` the number of reply
    characters received; after the first non-empty chunk the allocation is
    one longer than the reply and ends in NUL. */
module TssResponse {
  import opened CString
  import Numerals

  class Response {
    var content: seq<char>
    var length: nat

    /** The allocation always holds the reply plus one character. */
    ghost predicate Valid()
      reads this
    {
      |content| == length + 1
    }

    /** The reply is a C string that strstr may read. */
    ghost predicate Terminated()
      reads this
    {
      Valid() && content[length] == NUL
    }

    /** The reply received so far. */
    ghost function Body(): (b: seq<char>)
      reads this
      requires Valid()
      ensures |b| == length
    {
      content[..length]
    }

    /** As written in sendTssRequest (fwstitcher.c:218-219): `length = 0`
        and `content = malloc(1)`, whose one character is whatever the
        allocator left there. */
    constructor Allocated(indeterminate: char)
      ensures Valid() && length == 0 && content == [indeterminate]
    {
      content := [indeterminate];
      length := 0;
    }

    /** The allocation the reader of `content` needs: the empty reply,
        already terminated. */
    constructor ()
      ensures Valid() && Terminated() && Body() == []
    {
      content := [NUL];
      length := 0;
    }

    /** writeCallback (fwstitcher.c:241-251): `size * nmemb` is computed in
        size_t, so modulo 2^64; a chunk of that many characters is appended
        and the buffer terminated again. An empty chunk leaves the buffer
        as it was. */
    method WriteCallback(data: seq<char>, size: nat, nmemb: nat) returns (total: nat)
      requires Valid() && size < Numerals.U64 && nmemb < Numerals.U64
      requires (size * nmemb) % Numerals.U64 <= |data|
      modifies this
      ensures total == (size * nmemb) % Numerals.U64
      ensures Valid()
      ensures total == 0 ==> content == old(content) && length == old(length)
      ensures total != 0 ==> length == old(length) + total && Terminated()
      ensures total != 0 ==> Body() == old(Body()) + data[..total]
    {
      total := (size * nmemb) % Numerals.U64;
      if total != 0 {
        content := content[..length] + data[..total] + [NUL];
        length := length + total;
      }
    }

    /** curl_easy_perform delivering the reply in chunks, each through
        writeCallback with a size of 1: the reply is the chunks in order,
        and once any character has arrived the buffer is terminated. */
    method Deliver(chunks: seq<seq<char>>)
      requires Valid()
      requires forall i :: 0 <= i < |chunks| ==> |chunks[i]| < Numerals.U64
      modifies this
      ensures Valid() && Body() == old(Body()) + Concat(chunks)
      ensures old(Terminated()) || Concat(chunks) != [] ==> Terminated()
      ensures Concat(chunks) == [] ==> content == old(content)
    {
      var i := 0;
      while i < |chunks|
        invariant 0 <= i <= |chunks| && Valid()
        invariant Body() == old(Body()) + Concat(chunks[..i])
        invariant old(Terminated()) || Concat(chunks[..i]) != [] ==> Terminated()
        invariant Concat(chunks[..i]) == [] ==> content == old(content)
      {
        var written := WriteCallback(chunks[i], 1, |chunks[i]|);
        ConcatSnoc(chunks[..i], chunks[i]);
        assert chunks[..i + 1] == chunks[..i] + [chunks[i]];
        i := i + 1;
      }
      assert chunks[..i] == chunks;
    }
  }

  /** The characters of a sequence of chunks, in order. */
  function Concat(chunks: seq<seq<char>>): (r: seq<char>)
    ensures |r| == 0 <==> forall i :: 0 <= i < |chunks| ==> chunks[i] == []
  {
    if chunks == [] then [] else Concat(chunks[..|chunks| - 1]) + chunks[|chunks| - 1]
  }

  lemma ConcatSnoc(chunks: seq<seq<char>>, chunk: seq<char>)
    ensures Concat(chunks + [chunk]) == Concat(chunks) + chunk
  {
    assert (chunks + [chunk])[..|chunks|] == chunks;
  }

  /** A reply with no characters at all, say from a server that answers
      with an empty body, never reaches writeCallback: the buffer of
      fwstitcher.c:219 is then not a C string, yet main passes it to strstr
      (fwstitcher.c:52). */
  method EmptyReplyUnterminated() returns (r: Response)
    ensures fresh(r) && r.Valid() && !r.Terminated()
  {
    r := new Response.Allocated('M');
    r.Deliver([]);
  }
}
