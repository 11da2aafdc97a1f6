/**
 * The chunk loop both `download_image` functions share: open the file in
 * binary mode, then for each chunk of the streamed body that is not empty,
 * write it and add its length to `downloaded`.
 */
module Download {
  import opened Common
  import opened Files

  /** What the file holds once the chunks are written one after another. */
  function Written(chunks: seq<seq<byte>>): seq<byte> {
    if chunks == [] then []
    else Written(chunks[..|chunks| - 1]) + chunks[|chunks| - 1]
  }

  /** The `downloaded` counter: the lengths of the non-empty chunks, added up. */
  function Counted(chunks: seq<seq<byte>>): nat {
    if chunks == [] then 0
    else
      var last := chunks[|chunks| - 1];
      Counted(chunks[..|chunks| - 1]) + (if last != [] then |last| else 0)
  }

  /** The counter agrees with the size of the file written. */
  lemma {:induction false} CountedIsWrittenSize(chunks: seq<seq<byte>>)
    ensures Counted(chunks) == |Written(chunks)|
    decreases |chunks|
  {
    if chunks != [] {
      CountedIsWrittenSize(chunks[..|chunks| - 1]);
    }
  }

  /** The file is empty exactly when every chunk was empty. */
  lemma {:induction false} WrittenEmptyIff(chunks: seq<seq<byte>>)
    ensures Written(chunks) == [] <==> forall k :: 0 <= k < |chunks| ==> chunks[k] == []
    decreases |chunks|
  {
    if chunks != [] {
      var init := chunks[..|chunks| - 1];
      WrittenEmptyIff(init);
      assert forall k :: 0 <= k < |init| ==> init[k] == chunks[k];
    }
  }

  /** `with open(filename, 'wb') as f: for chunk in ...: if chunk: ...`:
      the file holds the chunks in order and `downloaded` counts their bytes;
      no other file changes. */
  method SaveChunks(fs: FileSystem, filename: string, chunks: seq<seq<byte>>)
    returns (downloaded: nat)
    modifies fs
    ensures fs.files == old(fs.files)[filename := Bytes(Written(chunks))]
    ensures downloaded == Counted(chunks)
  {
    fs.Create(filename);
    downloaded := 0;
    for k := 0 to |chunks|
      invariant fs.files == old(fs.files)[filename := Bytes(Written(chunks[..k]))]
      invariant downloaded == Counted(chunks[..k])
    {
      assert chunks[..k + 1][..k] == chunks[..k];
      var chunk := chunks[k];
      assert Written(chunks[..k + 1]) == Written(chunks[..k]) + chunk;
      if chunk != [] {
        fs.Append(filename, chunk);
        downloaded := downloaded + |chunk|;
      } else {
        assert Written(chunks[..k]) + chunk == Written(chunks[..k]);
      }
    }
    assert chunks[..|chunks|] == chunks;
  }
}
