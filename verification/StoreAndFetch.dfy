/** A text compressed and written by one client, then read and decompressed by another. */
module StoreAndFetch {
  import opened Bytes
  import opened Optional
  import opened Sequences
  import opened HuffmanCodes
  import opened BitPacking
  import opened PrefixDecoding
  import opened CodeTable
  import opened Compression
  import Protocol
  import WriteEndpoints
  import R = ReadTransfer
  import W = WriteTransfer

  /** Whatever the two networks do: once the upload is registered and a later read of the stored file
      succeeds, the reader obtains the text, followed by what the padding decodes to. */
  lemma FetchedText(codes: Codes, b: seq<Byte>, text: seq<Byte>,
                    up: W.Config, uploading: seq<Protocol.Action>, stored: W.System,
                    down: R.Config, downloading: seq<Protocol.Action>, fetched: R.System)
    requires CodesFor(codes, b, text)
    requires Storable(codes) && (forall x | x in text :: x in codes) && up.file == CompressedFile(codes, text)
    requires W.Run(up, uploading) == Some(stored) && stored.upload.phase == WriteEndpoints.Registered
    requires down.file == stored.upload.written
    requires R.Run(down, downloading) == Some(fetched)
    requires fetched.receiver.phase == Protocol.Succeeded
    ensures |b| > 0 && b[|b| - 1] in codes && |codes[b[|b| - 1]]| >= 1
    ensures var z := b[|b| - 1];
      Decompressed(fetched.receiver.written) ==
        Some(text + Repeat(z, Copies(Padding(|Encode(codes, text)|), |codes[z]|)))
  {
    W.WriteSafety(up, uploading, stored);
    R.ReadSafety(down, downloading, fetched);
    RoundTrip(codes, b, text);
  }
}
