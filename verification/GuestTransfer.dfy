/**
 Copying a host file into the guest through the guest agent: open, chunked
 base64 writes, close. Agent replies are parameters; the guest's own decoder is any
 function that inverts the encoding.
 */
module GuestTransfer {
  import opened Wrappers
  import opened Base64
  import Base64Decode

  const CHUNK_SIZE: nat := 1024 * 1024
  const MAX_TRANSFER_SIZE: nat := 4 * 1024 * 1024 * 1024

  datatype OpenReply = NoReply | NoHandle | Handle(h: int)

  datatype TransferError = StatFailed | TooLarge | ReadFailed | OpenFailed | WriteFailed

  ghost predicate Inverts(decode: Bytes -> Bytes) {
    forall data :: decode(Encode(data)) == data
  }

  /** Any of the repository's decoders would serve the guest. */
  lemma AgentDecoderInverts()
    ensures Inverts(text => Base64Decode.AgentGroups(Base64Decode.Kept(text, Base64Decode.AGENT_KEEPS)))
  {
    forall data: Bytes
      ensures Base64Decode.AgentGroups(Base64Decode.Kept(Encode(data), Base64Decode.AGENT_KEEPS)) == data
    {
      Base64Decode.DecodersInvertEncode(data);
    }
  }

  /** The guest's side of one transfer: the open file and the close commands it got. */
  class Guest {
    var content: Bytes
    var openHandle: Option<int>
    var closeCommands: nat

    constructor ()
      ensures content == [] && openHandle == None && closeCommands == 0
    {
      content, openHandle, closeCommands := [], None, 0;
    }

    /** `guest-file-open` in mode "wb". */
    method Open(reply: OpenReply)
      modifies this
      ensures closeCommands == old(closeCommands)
      ensures reply.NoReply? ==> content == old(content) && openHandle == old(openHandle)
      ensures !reply.NoReply? ==> content == []
      ensures reply.Handle? ==> openHandle == Some(reply.h)
    {
      if !reply.NoReply? {
        content := [];
      }
      if reply.Handle? {
        openHandle := Some(reply.h);
      }
    }

    /** `guest-file-write`; a failed command writes nothing. */
    method Write(handle: int, text: Bytes, decode: Bytes -> Bytes, ok: bool)
      requires openHandle == Some(handle)
      modifies this`content
      ensures content == old(content) + if ok then decode(text) else []
    {
      if ok {
        content := content + decode(text);
      }
    }

    /** `guest-file-close`; nobody looks whether the guest obeys. */
    method Close(handle: int, obeyed: bool)
      requires openHandle == Some(handle)
      modifies this`openHandle, this`closeCommands
      ensures closeCommands == old(closeCommands) + 1
      ensures openHandle == if obeyed then None else old(openHandle)
    {
      if obeyed {
        openHandle := None;
      }
      closeCommands := closeCommands + 1;
    }
  }

  /** Number of chunk writes a file of `size` bytes takes. */
  function Chunks(size: nat): nat { (size + 1_048_575) / 1_048_576 }

  function FirstFailure(writeOk: nat -> bool, k: nat, n: nat): (r: nat)
    requires k <= n
    ensures k <= r <= n && (r < n ==> !writeOk(r)) && forall j :: k <= j < r ==> writeOk(j)
    decreases n - k
  {
    if k == n || !writeOk(k) then k else FirstFailure(writeOk, k + 1, n)
  }

  method WriteChunk(guest: Guest, handle: int, chunk: Bytes, decode: Bytes -> Bytes, ok: bool)
    requires guest.openHandle == Some(handle) && Inverts(decode)
    modifies guest`content
    ensures guest.content == old(guest.content) + if ok then chunk else []
  {
    var text := EncodeHostGuest(chunk);
    guest.Write(handle, text, decode, ok);
  }

  /** Where the loop stands after `k` chunks. */
  function Offset(size: nat, k: nat): (r: nat)
    ensures r <= size && (r < size <==> k < Chunks(size))
  {
    if k * 1_048_576 <= size then k * 1_048_576 else size
  }

  /** The chunk loop: stops at the first write that fails. */
  method WriteChunks(guest: Guest, handle: int, data: Bytes, decode: Bytes -> Bytes, writeOk: nat -> bool) returns (ok: bool)
    requires guest.openHandle == Some(handle) && guest.content == [] && Inverts(decode)
    modifies guest`content
    ensures ok <==> FirstFailure(writeOk, 0, Chunks(|data|)) == Chunks(|data|)
    ensures guest.content == data[..Offset(|data|, FirstFailure(writeOk, 0, Chunks(|data|)))]
  {
    var offset := 0;
    var k := 0;
    while offset < |data|
      invariant k <= Chunks(|data|) && offset == Offset(|data|, k)
      invariant guest.content == data[..offset]
      invariant forall j :: 0 <= j < k ==> writeOk(j)
      decreases |data| - offset
    {
      var end := if offset + CHUNK_SIZE <= |data| then offset + CHUNK_SIZE else |data|;
      var sent := writeOk(k);
      WriteChunk(guest, handle, data[offset..end], decode, sent);
      if !sent {
        return false;
      }
      assert data[..offset] + data[offset..end] == data[..end];
      offset := end;
      k := k + 1;
    }
    ok := true;
  }

  /**
   `transfer_file_to_guest` after the path checks: `stat` is the size the file had
   when it was checked, `file` what was then read, each absent if that failed; `closed`
   is whether the guest obeys the close command.
   */
  method TransferFile(guest: Guest, stat: Option<nat>, file: Option<Bytes>, reply: OpenReply, decode: Bytes -> Bytes, writeOk: nat -> bool, closed: bool)
    returns (r: Result<nat, TransferError>)
    requires Inverts(decode)
    modifies guest
    ensures var data := if file.Some? then file.value else [];
            var accepted := stat.Some? && stat.value <= 4_294_967_296 && file.Some?;
            var written := FirstFailure(writeOk, 0, Chunks(|data|));
            && (r.Ok? <==> accepted && reply.Handle? && forall k :: 0 <= k < Chunks(|data|) ==> writeOk(k))
            && (r.Ok? ==> r.value == |data| && guest.content == data)
            && (accepted && reply.Handle? ==> guest.content == data[..Offset(|data|, written)])
            && guest.closeCommands == old(guest.closeCommands) + (if accepted && reply.Handle? then 1 else 0)
            && (accepted && reply.Handle? ==> guest.openHandle == if closed then None else Some(reply.h))
            && (!accepted ==> guest.content == old(guest.content) && guest.openHandle == old(guest.openHandle))
            && (r == Err(StatFailed) <==> stat.None?)
            && (r == Err(TooLarge) <==> stat.Some? && stat.value > 4_294_967_296)
            && (r == Err(ReadFailed) <==> stat.Some? && stat.value <= 4_294_967_296 && file.None?)
            && (r == Err(OpenFailed) <==> accepted && !reply.Handle?)
  {
    if stat.None? {
      return Err(StatFailed);
    }
    if stat.value > MAX_TRANSFER_SIZE {
      return Err(TooLarge);
    }
    if file.None? {
      return Err(ReadFailed);
    }
    var data := file.value;
    guest.Open(reply);
    if !reply.Handle? {
      return Err(OpenFailed);
    }
    var ok := WriteChunks(guest, reply.h, data, decode, writeOk);
    guest.Close(reply.h, closed);
    if !ok {
      return Err(WriteFailed);
    }
    r := Ok(|data|);
  }
}
