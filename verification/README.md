# Verified model of the camera frame path

A Dafny model of how a picture travels through this camera stack, from the capture programs' Unix
sockets to what a viewer or the printer's video daemon is given, and proofs of what the parts promise.

- **Capture socket** (`SockCtx`, `SockCtxProofs`, `SockCtxAnswers`): eight client slots, partial sends, whole-frame
  drops, timeouts and hang-ups.
- **V4L2 imposter** (`FrameGeometry`, `Imposter`, `ImposterProofs`, `ImposterAnswers`, `ImposterShim`):
  the buffer queue behind the ioctl, mmap and close handlers, and the fetch of one picture. `EndToEnd` composes it with
  the capture socket: a whole picture or none at all.
- **H.264 readers** (`H264Frames`, `H264FramesProofs`, `H264Reads`, `H264Stream`,
  `H264StreamProofs`): the access-unit splitter, how it depends on reads, and its rolling receive buffer.
- **MJPEG server** (`JpegFrames`, `MjpegStream`): the incremental JPEG extractor, the reconnecting
  stream and its splash messages, and the pacer.
- **WebRTC server** (`WebRtc`, `WebRtcServer`, `WebRtcProofs`, `WebRtcMedia`, `WebRtcRuns`): frames, splashes,
  candidates, closing and removal of viewers, for one viewer and over any run of the whole server.
- **RTSP delivery** (`Rtsp`), **non-maximum suppression** of detected boxes and its use per class
  (`Nms`, `NmsOverlap`, `Detections`) and **start-code normalisation** (`StartCodes`).

Code that changes state step by step is modelled as classes and loops: each method is proved equal to a
step on values, and the theorems are about every run of those steps. What an operating system, a clock
or a library answers is a parameter, so a theorem holds for every answer it could give. Ghost fields
record histories: the bytes sent on a connection, the frames handed over, the notices a viewer was given.

Check everything with `dafny verify dfyconfig.toml`.

## Where the code does less than its documentation suggests

- A compressed picture is meant to end "when the sender hangs up" (frame_geometry.h:19-22), and nothing
  tells its end otherwise. A hang-up reported by poll while bytes are still waiting ends the read at once
  (main.c:348-349 of the imposter, `HangUpCutsCompressed`), and a sender that gives up in the middle of a
  frame hangs up too (sock_ctx.h:276-283, `SenderCutsCompressed`); either way the picture can be accepted
  cut short. `CompressedPictureIff` and `OneFramePictureIff` state exactly when the picture is the frame
  that was offered. Fixed-length pictures are not affected.
- `h264_process_frames` may hand frames over and then return null; the caller keeps the whole buffer and
  hands the same frames over again (`FirstReadMayRepeat`). `NullWithFramesIff` states which bytes do so,
  `RunsOfferOnceIff` that, short of an overflow, frames are handed over exactly once on all other runs.
- An access unit delimiter ends a frame only as the last six bytes of a buffer, and a slice cut right behind
  its NAL header always counts as a first one, so the frames depend on how the bytes were cut into reads
  (`SplittingDependsOnReads`, `BareSliceDependsOnReads`). `ReadsDoNotMatterIff` states exactly when they do not.
- REQBUFS while streaming leaves old slot numbers in the pipe (`OldSlotsCanBeLeft`). `AgreementKeptIff` states exactly which
  calls do so, `EveryRunIsSound` what survives even then.
- The suppression widens every shared side by 0.00001, so a box of a few hundred-thousandths of a pixel does
  not suppress its own double (`TinyDoublePasses`); `DoubleFailsIff` states exactly which boxes do.
- The idle and write timeouts divide the nanosecond difference toward zero, so they may strike up to a
  millisecond early when the second has turned over (`ElapsedMayRunAhead`, `ElapsedIsWithinAMillisecond`).
- In `h264_stream_process` the test `n == EAGAIN` can never hold for a negative `n`, so every failed read
  shuts the stream; the model does the same.

## Model

| member | source | states |
|---|---|---|
| `EndToEnd.WholePictureOrNone` | src/v4l2-imposter/main.c:613-672 | After any run of the capture socket since it opened and any sequence of calls on the imposter, REQBUFS while streaming included, and whatever part of one connection a fetch found: a successful DQBUF of an NV12 or YUYV picture hands over exactly the first frame offered after that connection was accepted, with no byte of any other; a failed fetch reports no bytes and puts the slot at the tail of the queue |
| `EndToEnd.PictureArrivesIff` | src/v4l2-imposter/main.c:613-672 | And it does arrive: after any run of the socket and any run of calls without a REQBUFS on a stream with numbers in its pipe, with a buffer queued, DQBUF of an NV12 or YUYV picture succeeds iff that first frame was sent whole, reached the imposter whole and was read before any hang-up report |
| `EndToEnd.CompressedPictureIff` | src/v4l2-imposter/main.c:323-418 | After any such runs: a compressed picture handed over is the first frame offered after the connection was accepted iff that frame was sent whole and its length is the least of what reached the imposter, what fits the buffer and what the reads before a hang-up report may bring |
| `EndToEnd.OneFramePictureIff` | src/v4l2-mpp/common/capture-common/sock_ctx.h:269-290 | From a socket that closes after one frame: iff that frame was sent whole, all of it reached the imposter, it fits the buffer and no hang-up was reported before its last byte was read |
| `EndToEnd.SenderCutsCompressed` | src/v4l2-mpp/common/capture-common/sock_ctx.h:276-283 | A concrete run of a one-frame socket whose send fails after one of two bytes: the imposter, told of no hang-up, accepts that one byte as a picture |
| `EndToEnd.ConnectionsAreFaithful` | src/v4l2-mpp/common/capture-common/sock_ctx.h:250-292 | Any connection, open or already hung up on, carries whole frames from the first one after it joined, with at most one cut frame, at its very end; on a one-frame socket it carries that one frame, or a cut piece of it, and nothing else |
| `FrameGeometry.FixedBufferIsOnePicture` | src/v4l2-imposter/frame_geometry.h:23-61 | For the two fixed-length formats the buffer has room for one picture exactly, so a read is whole iff it fills the buffer |
| `FrameGeometry.PictureIsItsPlanes` | src/v4l2-imposter/frame_geometry.h:19-30 | Row by row: YUYV takes two bytes a pixel; NV12, for an even height, a full brightness plane and a colour plane of half as many rows; a compressed picture has no length |
| `ImposterProofs.EveryRunIsSound` | src/v4l2-imposter/main.c:514-727 | For every call sequence, REQBUFS while streaming included: a live queued buffer always has memory behind it and, while streaming, is in the pipe; when not streaming the pipe is empty; live buffers never share memory; the pipe never holds more than the kernel takes |
| `ImposterProofs.StepKeepsSound` | src/v4l2-imposter/main.c:514-727 | Each single call, in any state a run can be in, keeps that invariant |
| `ImposterProofs.ClosedIsSound` | src/v4l2-imposter/main.c:116-129 | The state before the first open has it |
| `ImposterProofs.AgreementKeptIff` | src/v4l2-imposter/main.c:514-558 | Pipe and queued flags stay in exact agreement (each queued live slot once, nothing else) across a call if and only if the call is not a REQBUFS on a stream whose pipe is not empty |
| `ImposterProofs.OldSlotsRemain` | src/v4l2-imposter/main.c:528-554 | The failing family: that REQBUFS leaves numbers in the pipe of buffers that are no longer queued |
| `ImposterProofs.OldSlotsCanBeLeft` | src/v4l2-imposter/main.c:514-558 | Five ordinary calls from the closed device lead to a stream on which one more REQBUFS does so |
| `ImposterProofs.OrderlyRunsAreExact` | src/v4l2-imposter/main.c:514-727 | Every run without such a REQBUFS ends with pipe and flags in exact agreement |
| `ImposterProofs.OrderlyCallsNeverMisfire` | src/v4l2-imposter/main.c:599-653 | In agreement the pipe holds at most one number per buffer, so no call ever fails to write to it, none meets a stale or unqueued number, and a failed fetch always re-queues at the tail |
| `ImposterProofs.FirstInFirstOut` | src/v4l2-imposter/main.c:580-672 | However QBUF and DQBUF interleave, slot numbers taken out followed by those still in the pipe are those that were in it followed by those put in |
| `ImposterProofs.FailedFetchRequeues` | src/v4l2-imposter/main.c:647-652 | In every run, orderly or not, a buffer whose fetch failed stays queued and its number moves to the tail of the pipe |
| `ImposterProofs.StreamOnFills` | src/v4l2-imposter/main.c:685-702 | STREAMON never fails to write: it succeeds with each queued live slot in the pipe once, in slot order |
| `ImposterProofs.QueuedSlotsAre` | src/v4l2-imposter/main.c:685-699 | Those numbers are exactly the queued live slots, none of them twice |
| `ImposterProofs.StreamOffReleasesAll` | src/v4l2-imposter/main.c:719-723 | From every reachable state STREAMOFF ends with the pipe empty and no live buffer queued |
| `ImposterProofs.DrainReleases` | src/v4l2-imposter/main.c:719-723 | The drain loop releases a buffer iff its number was in the pipe and names a live slot, and touches no other |
| `ImposterProofs.OffsetsNameSlots` | src/v4l2-imposter/main.c:542-552 | With a nonzero buffer size the offset QUERYBUF reports for a slot makes mmap choose that very slot |
| `ImposterProofs.FixedPictureWholeOrNone` | src/v4l2-imposter/main.c:374-418 | A fixed-length fetch is accepted iff the read took exactly one picture without an error; the buffer then holds the first picture of the connection and nothing else, and otherwise reports no bytes |
| `ImposterProofs.DequeueIsWholeOrRequeued` | src/v4l2-imposter/main.c:627-663 | In every state a run can be in, DQBUF that succeeds returns the head slot with one whole picture and unqueues it, and a failed fetch leaves it queued at the tail with nothing reported; with pipe and flags in agreement and something queued nothing else can happen |
| `ImposterProofs.CompressedWholeIff` | src/v4l2-imposter/main.c:323-418 | An accepted compressed picture is everything that was sent on the connection iff that fits the buffer and no hang-up was reported before its last byte was read; what was sent may itself be cut |
| `ImposterProofs.AcceptedIsTheFront` | src/v4l2-imposter/main.c:374-418 | What an accepted buffer reports is never empty and is the front of what was sent, as long as the least of what was sent, what fits and what came before a hang-up report |
| `ImposterProofs.EveryReachableIsSound` | src/v4l2-imposter/main.c:116-129 | Every state any calls lead to from the state before the first open keeps the invariant |
| `ImposterProofs.ReadTakesAllItCan` | src/v4l2-imposter/main.c:323-372 | A read that ends without an error took the least of what was sent, what fits and what the reads before a hang-up report may bring |
| `ImposterProofs.HangUpCutsCompressed` | src/v4l2-imposter/main.c:348-349 | A concrete feed on which a compressed picture is accepted although its last byte was never read: a hang-up reported while bytes wait ends the read |
| `Imposter.ReadTotal` | src/v4l2-imposter/main.c:358-372 | A read never takes more than was sent nor more than the buffer holds; ReadSucceedsIff and ReadTakesAllItCan say when it succeeds and with how much |
| `ImposterAnswers.ReadSucceedsIff` | src/v4l2-imposter/main.c:323-372 | A read succeeds iff the buffer fills before a hang-up, or the sender is done when it stops: it hung up, or one more read finds nothing left; a failure or a timeout before that fails it |
| `ImposterAnswers.FixedPictureAcceptedIff` | src/v4l2-imposter/main.c:374-418 | A fixed-length picture is accepted iff its bytes were sent and the reads before a hang-up bring them all |
| `ImposterAnswers.CompressedPictureAcceptedIff` | src/v4l2-imposter/main.c:374-418 | A compressed picture is accepted iff at least one byte comes before a hang-up and the read ends well |
| `ImposterAnswers.FixedPictureDequeuedIff` | src/v4l2-imposter/main.c:613-663 | In an orderly stream with a buffer queued DQBUF succeeds iff the picture's bytes were sent and the reads before a hang-up bring them all |
| `ImposterAnswers.CompressedPictureDequeuedIff` | src/v4l2-imposter/main.c:613-663 | And for a compressed picture iff at least one byte comes before a hang-up and the read ends well |
| `ImposterAnswers.QueueSucceedsIff` | src/v4l2-imposter/main.c:580-611 | In agreement QBUF succeeds iff the slot is live, mapped and not queued; it then goes to the tail of the pipe while streaming, and no other slot changes |
| `ImposterAnswers.MapSucceedsIff` | src/v4l2-imposter/main.c:915-943 | mmap succeeds iff a live slot has the offset and the length and has, or is granted, memory; it answers with that slot's address and no other slot changes |
| `ImposterAnswers.UnmapSucceedsIff` | src/v4l2-imposter/main.c:970-986 | munmap succeeds iff the address is that of a live slot that is not queued; that slot then has no memory and no other slot changes |
| `ImposterAnswers.MapThenUnmap` | src/v4l2-imposter/main.c:896-987 | munmap of the address mmap gave takes back exactly what mmap did |
| `ImposterAnswers.RequestSucceedsIff` | src/v4l2-imposter/main.c:514-558 | REQBUFS succeeds iff type and memory fit and, unless none is wanted, a buffer is at most 4 MiB; it gives what was wanted, four at most, none mapped or queued |
| `Imposter.SlotAtOffset` | src/v4l2-imposter/main.c:920-922 | The search finds the first live slot with that offset iff there is one |
| `Imposter.SlotAtAddress` | src/v4l2-imposter/main.c:970-971 | The search finds a live slot mapped at the address iff there is one |
| `ImposterShim.ReadFully` | src/v4l2-imposter/main.c:358-372 | The loop leaves exactly the first bytes of the connection at the front of the buffer and every byte behind them untouched |
| `ImposterShim.Shim.FetchFrame` | src/v4l2-imposter/main.c:374-418 | In place, the fetch that the whole-picture theorems are about; no other buffer changes |
| `ImposterShim.Shim.FreeAll` | src/v4l2-imposter/main.c:131-144 | Every slot loses its memory, size and length; the queued flag and the offset stay |
| `ImposterShim.Shim.HandleOpen` | src/v4l2-imposter/main.c:227-263 | Opening is refused while open; otherwise the pipe starts empty and nothing else changes |
| `ImposterShim.Shim.CloseFd` | src/v4l2-imposter/main.c:273-295 | Only the device's own descriptor closes it; then no buffer, number or stream is left |
| `ImposterShim.Shim.Allocate` | src/v4l2-imposter/main.c:542-554 | Offsets accumulated one by one are slot times size; slots beyond the count are untouched |
| `ImposterShim.Shim.HandleReqbufs` | src/v4l2-imposter/main.c:514-558 | The handler computes the REQBUFS step of the proofs, including the refused sizes that have already freed the buffers, and keeps the invariant |
| `ImposterShim.Shim.HandleQuerybuf` | src/v4l2-imposter/main.c:560-578 | A slot is reported iff the device is open, the type is capture and the index is live; it is the buffer size at index times that size, and with a nonzero size that offset makes mmap choose that very slot |
| `ImposterShim.Shim.HandleQbuf` | src/v4l2-imposter/main.c:580-611 | The handler computes the QBUF step of the proofs, the roll-back of a failed pipe write included, and keeps the invariant |
| `ImposterShim.Shim.HandleDqbuf` | src/v4l2-imposter/main.c:613-672 | The handler computes the DQBUF step of the proofs with its re-queue on failure, and keeps the invariant |
| `ImposterShim.Shim.HandleStreamon` | src/v4l2-imposter/main.c:674-704 | The loop over the slots computes the STREAMON step of the proofs and keeps the invariant |
| `ImposterShim.Shim.HandleStreamoff` | src/v4l2-imposter/main.c:706-727 | The drain loop terminates, computes the STREAMOFF step of the proofs and keeps the invariant |
| `ImposterShim.Shim.HandleMmap` | src/v4l2-imposter/main.c:896-944 | The handler computes the mmap step of the proofs, and new memory never overlaps another slot's |
| `ImposterShim.Shim.HandleMunmap` | src/v4l2-imposter/main.c:959-987 | The handler computes the munmap step of the proofs: a queued buffer keeps its memory |
| `SockCtx.WriteClient` | src/v4l2-mpp/common/capture-common/sock_ctx.h:175-206 | What goes out on the connection is a prefix of the frame, the whole of it iff the call succeeds |
| `SockCtx.Transfer` | src/v4l2-mpp/common/capture-common/sock_ctx.h:175-206 | Success means every byte was taken; any other end means a proper prefix |
| `SockCtxAnswers.WriteSucceedsIff` | src/v4l2-mpp/common/capture-common/sock_ctx.h:175-206 | A write succeeds iff the bytes granted before the kernel fails, or has no room a tenth of a second after the start, reach the frame's length; it sends what is granted up to that; otherwise the result says which of the two ended it |
| `SockCtxAnswers.TurnEndsIff` | src/v4l2-mpp/common/capture-common/sock_ctx.h:257-291 | A client's turn hangs up on it iff it is idle for three seconds, or the frame is offered to it and it is not granted all of it or the socket closes after one frame; it gets the frame whole iff it is neither idle nor skipped and is granted it; it loses it whole iff it is skipped |
| `SockCtxAnswers.WhoIsSkipped` | src/v4l2-mpp/common/capture-common/frame_backlog.h:7-25 | A reader that owes nothing is never skipped; of a frame the socket can hold exactly those that owe a whole frame are, of a larger one everybody who owes anything; owing more never helps |
| `SockCtxAnswers.ServedClientStays` | src/v4l2-mpp/common/capture-common/sock_ctx.h:250-292 | Over any run of writes a client of a socket that does not close after one frame, never idle, never skipped and always granted the frame, stays connected and is sent every one of them |
| `SockCtxAnswers.AdmittedIff` | src/v4l2-mpp/common/capture-common/sock_ctx.h:123-143 | A connection is taken iff a slot is free; it then has been sent nothing and a keyframe is asked for |
| `SockCtxAnswers.ElapsedIsWithinAMillisecond` | src/v4l2-mpp/common/capture-common/sock_ctx.h:187-191 | The computed milliseconds are less than one away from the time that passed, on either side |
| `SockCtxAnswers.ElapsedMayRunAhead` | src/v4l2-mpp/common/capture-common/sock_ctx.h:262-263 | A concrete pair of times one nanosecond apart that count as a millisecond |
| `SockCtx.FreeSlot` | src/v4l2-mpp/common/capture-common/sock_ctx.h:123-129 | The first free slot, or none iff all are occupied |
| `SockCtx.Context.constructor` | src/v4l2-mpp/common/capture-common/sock_ctx.h:39-82 | After opening, every slot is free and the count is zero |
| `SockCtx.Context.AcceptClients` | src/v4l2-mpp/common/capture-common/sock_ctx.h:104-147 | Each pending connection enters the first free slot or is turned away; the answer is true iff the count grew; the counter stays the number of occupied slots |
| `SockCtx.Context.CloseClient` | src/v4l2-mpp/common/capture-common/sock_ctx.h:238-248 | Its three assertions are the preconditions, met at every call |
| `SockCtx.Context.ServeClient` | src/v4l2-mpp/common/capture-common/sock_ctx.h:257-291 | In place, the slot's turn that the run theorems are about; the counter stays the number of occupied slots |
| `SockCtx.Context.WriteFrame` | src/v4l2-mpp/common/capture-common/sock_ctx.h:250-292 | The loop over the slots computes the fan-out step used in the run theorems |
| `SockCtx.Context.Close` | src/v4l2-mpp/common/capture-common/sock_ctx.h:84-102 | Every occupied slot is hung up on, once, and the count is zero |
| `SockCtx.ServeKeepsCount` | src/v4l2-mpp/common/capture-common/sock_ctx.h:238-292 | The counter stays the number of occupied slots through every branch of a slot's turn |
| `SockCtxProofs.WholeFramesOrHangUp` | src/v4l2-mpp/common/capture-common/sock_ctx.h:104-292 | After any run since opening: a connected client was sent whole frames only, an in-order subsequence of those offered since it joined; a proper prefix is only ever the last thing on a connection then hung up on; sent and dropped frames add up to those offered since it joined; the counter is the number of occupied slots and at most eight |
| `SockCtxProofs.RunsStayFaithful` | src/v4l2-mpp/common/capture-common/sock_ctx.h:104-292 | The same from any state that has it |
| `SockCtxProofs.WithoutDropsEveryFrameArrives` | src/v4l2-mpp/common/capture-common/sock_ctx.h:269-286 | With drops off, a connected client's bytes are every frame offered since it joined, end to end |
| `SockCtxProofs.RunsStayPrompt` | src/v4l2-mpp/common/capture-common/frame_backlog.h:7-25 | When frames are nonempty and the kernel owes a fresh connection nothing, no connection misses the first frame offered after it joined: it carries that frame first, or a cut piece of it only; a socket that closes after one frame sends a connection nothing behind it |
| `SockCtxProofs.WriteLeads` | src/v4l2-mpp/common/capture-common/sock_ctx.h:276-290 | A connection's first write is that frame, whole or cut; no later write touches what it began with |
| `SockCtxProofs.FirstSentIsFirstOffered` | src/v4l2-mpp/common/capture-common/sock_ctx.h:269-286 | With frames of one size, the first such many bytes of any connection are the first frame offered after it joined |
| `SockCtxProofs.DeliverServesSlot` | src/v4l2-mpp/common/capture-common/sock_ctx.h:276-290 | A write leaves the slot with one more whole frame, or hangs up on a connection cut inside this one frame |
| `Bytes.MasksAreArithmetic` | src/v4l2-mpp/common/stream-common/h264_frames.h:18-30 | On machine bytes the masks 0x1f and 0x80 are the arithmetic tests the model uses |
| `H264Frames.FindNal` | src/v4l2-mpp/common/stream-common/h264_frames.h:7-14 | The scan returns the least 4-byte start code at or after its start |
| `H264Frames.NextCodeIsLeast` | src/v4l2-mpp/common/stream-common/h264_frames.h:7-14 | That position holds a code, none lies before it, and none is returned iff there is none |
| `H264Frames.CodesDoNotOverlap` | src/v4l2-mpp/common/stream-common/h264_frames.h:46 | Two start codes are at least four bytes apart, so stepping over a found one misses none |
| `H264Frames.FindFrameEnd` | src/v4l2-mpp/common/stream-common/h264_frames.h:43-58 | The inner loop, which looks only at codes and remembers one flag, finds the least position that ends the frame |
| `H264Frames.NextBoundaryIsLeast` | src/v4l2-mpp/common/stream-common/h264_frames.h:43-58 | That position ends the frame, none before it does, and none is returned iff there is none |
| `H264Frames.FirstSliceBetweenExists` | src/v4l2-mpp/common/stream-common/h264_frames.h:44-53 | The flag is true iff some first slice lies strictly between the frame's start and here |
| `H264Frames.ProcessFrames` | src/v4l2-mpp/common/stream-common/h264_frames.h:33-64 | The nested loops compute the splitting that the theorems below are about |
| `H264Frames.Split` | src/v4l2-mpp/common/stream-common/h264_frames.h:33-64 | A returned position is in the buffer and leaves a tail of under eight bytes |
| `H264FramesProofs.FramesAreAccessUnits` | src/v4l2-mpp/common/stream-common/h264_frames.h:33-62 | Each emitted frame opens at a start code and ends at the least later boundary; frames are adjacent, the first at the first code; a returned position is the last boundary, under eight bytes from the end; on a null return the frame behind the last boundary opens eight bytes or more from the end and never ends |
| `H264FramesProofs.FirstUnitIsHandedOver` | src/v4l2-mpp/common/stream-common/h264_frames.h:33-62 | Frames are emitted iff the first start code opens an access unit, and that unit is the first of them |
| `H264FramesProofs.WhatOpensAndWhatEnds` | src/v4l2-mpp/common/stream-common/h264_frames.h:16-31 | In the terms of Table 7-1 of ITU-T H.264: a frame opens at a coded slice, IDR or not and no other kind, whose header says or has yet to say so; a delimiter counts only with six bytes and primary_pic_type four or more |
| `H264FramesProofs.NullWithFramesIff` | src/v4l2-mpp/common/stream-common/h264_frames.h:43-58 | Frames are emitted together with a null return iff the bytes hold one or more access units from their first start code on and then a frame that opens eight bytes or more from the end and never ends |
| `H264Reads.OpenPictureReturnsNull` | src/v4l2-mpp/common/stream-common/h264_frames.h:43-58 | Concrete bytes, one picture and the first eight bytes of the next, on which that happens |
| `H264FramesProofs.Conservation` | src/v4l2-mpp/common/stream-common/h264_frames.h:33-64 | After a non-null return that emitted something, frames and tail together are the input from its first start code on; the tail opens with a start code |
| `H264FramesProofs.DiscardedHoldsNoCode` | src/v4l2-mpp/common/stream-common/h264_frames.h:36-39 | When nothing was emitted, the bytes given up never hold the beginning of a start code, whatever arrives later |
| `H264FramesProofs.NullReturnOffersAgain` | src/v4l2-mpp/common/stream-common/h264_frames.h:55-57 | After a null return, splitting the kept buffer again, with any bytes appended, begins with exactly the frames already emitted |
| `H264FramesProofs.DelimiterOnlyAtBufferEnd` | src/v4l2-mpp/common/stream-common/h264_frames.h:27-31 | A delimiter NAL ends a frame iff it is the last six bytes of the buffer and its payload's top bit is set |
| `H264FramesProofs.SplittingDependsOnReads` | src/v4l2-mpp/common/stream-common/h264_frames.h:27-31 | Concrete bytes, ending in a delimiter, that yield a frame in one read and none when a single byte more is read with them |
| `H264Reads.BareSliceDependsOnReads` | src/v4l2-mpp/common/stream-common/h264_frames.h:16-25 | The same with no delimiter: bytes cut right behind a slice's NAL header |
| `H264Reads.ReadsDoNotMatterIff` | src/v4l2-mpp/common/stream-common/h264_frames.h:16-64 | For all bytes: two reads, the second with what the first kept in front, emit the frames one read of everything would iff the first leaves no frame open behind whole ones and, when it emits frames and more bytes follow, the NAL that ended the last of them is no delimiter and, if cut right behind its header, the next byte has its top bit set |
| `H264Reads.ReadsDoNotMatter` | src/v4l2-mpp/common/stream-common/h264_frames.h:33-64 | Any number of reads, each but the last leaving off so, emit the frames of one split of all their bytes |
| `H264Reads.SplitWithMore` | src/v4l2-mpp/common/stream-common/h264_frames.h:43-62 | With more bytes behind a buffer the same frames come first and splitting goes on where it stopped iff a first slice still opens at the last boundary; otherwise the frames differ |
| `H264Reads.SplitBehind` | src/v4l2-mpp/common/stream-common/h264_frames.h:33-64 | Bytes in front of a buffer change nothing about the frames found behind them |
| `H264FramesProofs.TopBitMeansFirstMacroblock` | src/v4l2-mpp/common/stream-common/h264_frames.h:16-25 | For a slice NAL with a payload byte the one-bit test holds iff first_mb_in_slice, read as ue(v) of section 9.1 of ITU-T H.264, is zero |
| `H264Stream.Stream.Open` | src/v4l2-mpp/common/stream-common/h264_stream.h:16-44 | Succeeds iff shut and socket and connect succeed; then nothing is held, otherwise nothing changes or the stream is shut |
| `H264Stream.Stream.Close` | src/v4l2-mpp/common/stream-common/h264_stream.h:46-57 | True iff the stream was open; afterwards it is shut and holds nothing |
| `H264Stream.Stream.MakeRoom` | src/v4l2-mpp/common/stream-common/h264_stream.h:64-69 | Growing the vector keeps the held bytes; the overflow reset lets go of all of them |
| `H264Stream.Stream.Keep` | src/v4l2-mpp/common/stream-common/h264_stream.h:96-106 | The move and the resize keep exactly the bytes behind the returned position |
| `H264Stream.Stream.Process` | src/v4l2-mpp/common/stream-common/h264_stream.h:59-108 | One read: the new state, the frames handed over and the returned length; a read that brings no bytes shuts the stream |
| `H264StreamProofs.RunsStaySound` | src/v4l2-mpp/common/stream-common/h264_stream.h:16-108 | Over every run of opens, reads and closes: the vector stays under MAX_FRAME_SIZE + MIN_FRAME_SIZE, and every frame handed over is a stretch of the bytes this connection delivered |
| `H264StreamProofs.HeldIsTheLastDelivered` | src/v4l2-mpp/common/stream-common/h264_stream.h:16-108 | Over every run the held bytes are the last bytes the current connection delivered |
| `H264StreamProofs.ReadsAskForRoom` | src/v4l2-mpp/common/stream-common/h264_stream.h:64-71 | Every read asks for at least MIN_FRAME_SIZE/2 bytes, so zero bytes always mean the peer closed |
| `H264StreamProofs.RoomIsGivenBack` | src/v4l2-mpp/common/stream-common/h264_stream.h:96-106 | The room a large frame needed is given back by the first read that leaves only a tail |
| `H264StreamProofs.ReadKeepsExactlyOnce` | src/v4l2-mpp/common/stream-common/h264_stream.h:89-106 | Short of the overflow reset, a read keeps "frames handed over and bytes held are the stream from its first start code, nothing lost or repeated" if and only if the bytes held and read do not leave a frame open, eight bytes or more from their end, behind whole access units |
| `H264StreamProofs.KeptFramesAreOfferedAgain` | src/v4l2-mpp/common/stream-common/h264_stream.h:91-94 | The read after one that kept what it handed over hands every one of those frames over again |
| `H264StreamProofs.FirstReadMayRepeat` | src/v4l2-mpp/common/stream-common/h264_stream.h:89-94 | Those bytes as the first read of a connection: its picture is handed over again by the next read, whatever it brings |
| `H264StreamProofs.OverflowLosesBytes` | src/v4l2-mpp/common/stream-common/h264_stream.h:64-66 | A read that begins with the overflow reset breaks that promise whenever the dropped bytes held a start code and the bytes read do not themselves leave a frame open behind whole ones: the dropped bytes are gone |
| `H264StreamProofs.FramesDoNotDependOnReads` | src/v4l2-mpp/common/stream-common/h264_stream.h:59-108 | From a fresh connection, when no read finds the reset due and each but the last leaves off where the bytes to come change nothing about it, the frames handed over are those of one split of all the bytes, however they were cut |
| `H264StreamProofs.StreamIsFramesAndTail` | src/v4l2-mpp/common/stream-common/h264_stream.h:59-108 | From a fresh connection through any such reads, frames in order and the held tail are the received bytes from their first start code on |
| `H264StreamProofs.CleanRunsOfferOnce` | src/v4l2-mpp/common/stream-common/h264_stream.h:59-108 | The same from any state that has it |
| `H264StreamProofs.RunsOfferOnceIff` | src/v4l2-mpp/common/stream-common/h264_stream.h:59-108 | Over any reads without an overflow the promise holds at the end iff no read left a frame open behind whole ones: a repetition is never made good |
| `H264StreamProofs.AheadForGood` | src/v4l2-mpp/common/stream-common/h264_stream.h:89-106 | Once more has been handed over than the stream is long, it stays so |
| `JpegFrames.ExtractFrames` | src/v4l2-mpp/apps/stream-http/camera-stream.py:66-82 | The loop computes the extraction that the theorems below are about |
| `JpegFrames.FirstJpeg` | src/v4l2-mpp/apps/stream-http/camera-stream.py:85-93 | Chunk by chunk, with early exit, it returns the first picture of all the bytes together, or nothing iff there is none |
| `JpegFrames.FindIsFirst` | src/v4l2-mpp/apps/stream-http/camera-stream.py:75-78 | A marker is found at its first position, and not found iff there is none |
| `JpegFrames.ChunkIndependence` | src/v4l2-mpp/apps/stream-http/camera-stream.py:66-82 | Cutting the bytes anywhere and carrying the remainder over gives the same pictures and the same remainder |
| `JpegFrames.FeedingEqualsOneCall` | src/v4l2-mpp/apps/stream-http/camera-stream.py:66-82 | So does any number of cuts, from any remainder an earlier call left |
| `JpegFrames.RestIsSettled` | src/v4l2-mpp/apps/stream-http/camera-stream.py:76-80 | A remainder holds no whole picture and extracting it again changes nothing |
| `JpegFrames.OnlyWholePictures` | src/v4l2-mpp/apps/stream-http/camera-stream.py:79-82 | Every picture handed over opens with SOI and has its only EOI behind the SOI at its end |
| `JpegFrames.PictureBetweenMarkers` | src/v4l2-mpp/apps/stream-http/camera-stream.py:43-82 | Bytes between FF D8 and the first FF D9 come out as one picture, whatever stands in front without an FF D8: the SOI and EOI markers of section B.1.1.3 of ITU-T T.81 |
| `JpegFrames.PicturesRoundTrip` | src/v4l2-mpp/apps/stream-http/camera-stream.py:66-82 | Whole pictures sent back to back come out as they went in, nothing left over |
| `JpegFrames.PicturesSurviveAnyCut` | src/v4l2-mpp/apps/stream-http/camera-stream.py:66-93 | And so they do through any sequence of reads |
| `MjpegStream.CaptureStream.Frames` | src/v4l2-mpp/apps/stream-http/camera-stream.py:225-245 | In place, the pass that the run theorems below are about; what it yields is exactly what is added to the viewer's history, in order |
| `MjpegStream.RunShowsWhatWasReceived` | src/v4l2-mpp/apps/stream-http/camera-stream.py:225-245 | Over every run, stalls and reconnects included, the pictures shown are those of one extraction over the concatenation of all chunks received |
| `MjpegStream.SilenceOnlyEscalates` | src/v4l2-mpp/apps/stream-http/camera-stream.py:169-182 | A longer silence never earns a milder message |
| `MjpegStream.ViewerIsNeverMisled` | src/v4l2-mpp/apps/stream-http/camera-stream.py:169-245 | On every run: no "connecting" after a first picture, no "interrupted" to a viewer without one before thirty seconds, and between two pictures the message only escalates |
| `MjpegStream.MjpegPacer.Classify` | src/v4l2-mpp/apps/stream-http/camera-stream.py:96-108 | A frame within the interval is dropped; later, it is sent iff the backlog is smaller than the last payload, and the viewer is stale iff it is not and more than ten seconds have passed; a drop is counted |
| `MjpegStream.MjpegPacer.Relay` | src/v4l2-mpp/apps/stream-http/camera-stream.py:377-384 | In place, the pacing step that the bounds below are about: a dropped, stale or broken frame leaves the send clock alone |
| `MjpegStream.NeverFasterThanAsked` | src/v4l2-mpp/apps/stream-http/camera-stream.py:96-108 | On every run with a monotone clock the frames sent never exceed fps times the time since the pacer was made |
| `MjpegStream.PacingBound` | src/v4l2-mpp/apps/stream-http/camera-stream.py:248-275 | The same from any pacer state within that bound |
| `MjpegStream.EveryOfferCounted` | src/v4l2-mpp/apps/stream-http/camera-stream.py:261-276 | Until the viewer is given up or a write breaks, sent plus dropped grows by exactly the frames offered |
| `MjpegStream.TimelyFramesAreAllSent` | src/v4l2-mpp/apps/stream-http/camera-stream.py:96-108 | Of a run of offers that each come a frame's interval after the last one went out, to a viewer that has drained, every single frame is sent |
| `MjpegStream.WrittenIffDrained` | src/v4l2-mpp/apps/stream-http/camera-stream.py:102-108 | At every offer of a run a frame that is not early goes to the socket iff less than the last payload, header and line end included, is unsent |
| `MjpegStream.GivenUpAfterTenSilentSeconds` | src/v4l2-mpp/apps/stream-http/camera-stream.py:377-384 | On every run with a monotone clock, a viewer given up had no frame finish sending in the ten seconds before the offer it was given up at, and had not drained the last one |
| `WebRtc.FrameCarriesKeyframe` | src/v4l2-mpp/apps/stream-webrtc/main.cpp:158-169 | The scan is true iff an IDR or SPS NAL header stands behind some 3-byte start code |
| `WebRtc.Client.RelayFrame` | src/v4l2-mpp/apps/stream-webrtc/main.cpp:171-186 | A frame reaches a viewer that is not closing and takes it; only a keyframe makes it one that has seen video |
| `WebRtc.Client.SendSplash` | src/v4l2-mpp/apps/stream-webrtc/main.cpp:224-251 | In place, the splash step of the theorems below: a closing or undisturbed viewer is sent nothing |
| `WebRtc.Client.PingOnce` | src/v4l2-mpp/apps/stream-webrtc/main.cpp:330-372 | In place, the ping step that the lifecycle theorems below are about: the goodbye, the recycle, the connect and pong timeouts, and the ping itself |
| `WebRtc.Client.HearPong` | src/v4l2-mpp/apps/stream-webrtc/main.cpp:425-429 | The message callback notes the time of the pong and nothing else |
| `WebRtc.Client.ReceiveAnswer` | src/v4l2-mpp/apps/stream-webrtc/main.cpp:473-479 | The waiting candidates are applied in order after the remote description, and none waits any more |
| `WebRtc.Client.ReceiveCandidates` | src/v4l2-mpp/apps/stream-webrtc/main.cpp:520-539 | In place, the candidate step that conservation is about |
| `WebRtcServer.Server.SendFrame` | src/v4l2-mpp/apps/stream-webrtc/main.cpp:188-206 | One scan, made only when someone still waits for a picture, leaves every viewer as a scan made for it alone would |
| `WebRtcServer.Server.PingClients` | src/v4l2-mpp/apps/stream-webrtc/main.cpp:322-373 | Every viewer on the list gets its own share of the pass, and no other |
| `WebRtcServer.Server.MaybeSendSplash` | src/v4l2-mpp/apps/stream-webrtc/main.cpp:260-284 | Splashes go to every viewer iff a track is open and a second has passed since the last round |
| `WebRtcServer.Server.CleanupClients` | src/v4l2-mpp/apps/stream-webrtc/main.cpp:303-320 | Exactly the viewers whose connection is neither closed nor failed stay, in order and unchanged |
| `WebRtcServer.Server.PingAndCleanup` | src/v4l2-mpp/apps/stream-webrtc/main.cpp:719-720 | The loop's two passes leave exactly those the ping pass left connected |
| `WebRtcServer.Server.FindClient` | src/v4l2-mpp/apps/stream-webrtc/main.cpp:104-110 | The viewer with that id iff there is one |
| `WebRtcServer.Server.HandleWantOffer` | src/v4l2-mpp/apps/stream-webrtc/main.cpp:444-458 | A full list is refused unchanged; otherwise one new viewer joins at the end, even when no description comes; the list never exceeds the maximum and ids are never reused |
| `WebRtcServer.Server.HandleAnswer` | src/v4l2-mpp/apps/stream-webrtc/main.cpp:460-482 | Only the named viewer changes, by the answer, and the reply says which of the three cases it was |
| `WebRtcServer.Server.HandleOffer` | src/v4l2-mpp/apps/stream-webrtc/main.cpp:484-506 | After a cleanup a full list is refused; otherwise one new viewer joins that already has its remote description |
| `WebRtcServer.Server.HandleCandidates` | src/v4l2-mpp/apps/stream-webrtc/main.cpp:508-542 | Only the named viewer changes, by its candidates, and the reply says which of the three cases it was |
| `WebRtcServer.KeptInOrder` | src/v4l2-mpp/apps/stream-webrtc/main.cpp:306-319 | The viewers that stay keep their order |
| `WebRtcServer.KeptAreListed` | src/v4l2-mpp/apps/stream-webrtc/main.cpp:303-320 | Those who stay are still no two the same, nor two with one id |
| `WebRtcProofs.SplitterKeyframesAreSeen` | src/v4l2-mpp/apps/stream-webrtc/main.cpp:158-169 | Wherever splitting on 4-byte codes finds an IDR slice or an SPS, the scan says keyframe |
| `WebRtcProofs.KeyNalIs` | src/v4l2-mpp/apps/stream-webrtc/main.cpp:150-169 | In the terms of Table 7-1 of ITU-T H.264, what counts is an IDR slice or a sequence parameter set behind 00 00 01 |
| `WebRtcProofs.CandidatesAreConserved` | src/v4l2-mpp/apps/stream-webrtc/main.cpp:460-542 | For every interleaving of events, candidates applied followed by those waiting are the nonempty ones received, in order; none is applied before the remote description and none waits after it |
| `WebRtcProofs.ClosingNeverReverts` | src/v4l2-mpp/apps/stream-webrtc/main.cpp:289-301 | Over every run a closing viewer stays closing, its time does not move, and all it is sent is the interrupted splash |
| `WebRtcProofs.TornDownAtTheFirstDuePass` | src/v4l2-mpp/apps/stream-webrtc/main.cpp:295-301 | Over every run a closing viewer's connection is what the library reports until the first ping pass at or after its time; that pass tears it down, and from then on it is closed unless the library itself says otherwise |
| `WebRtcProofs.RemovedInTheSamePass` | src/v4l2-mpp/apps/stream-webrtc/main.cpp:719-720 | A closing viewer whose time has come is off the list after the cleanup of that same pass |
| `WebRtcProofs.LivingExactly` | src/v4l2-mpp/apps/stream-webrtc/main.cpp:306-319 | A viewer stays on the list iff its connection is active |
| `WebRtcProofs.PingTurnsOnlyOnTheSilent` | src/v4l2-mpp/apps/stream-webrtc/main.cpp:336-363 | With the session timeout off, a ping pass turns on a viewer iff its channel is not open thirty seconds after joining, or a keep-alive viewer has not ponged for thirty seconds |
| `WebRtcProofs.TurnedOnIffSilent` | src/v4l2-mpp/apps/stream-webrtc/main.cpp:322-373 | With the session timeout off and a monotone clock, over every run a viewer is made to close iff it keeps alive and some ping pass, thirty seconds or more after it joined, finds its channel open and no pong in the thirty seconds before |
| `WebRtcProofs.HealthyViewersAreNeverClosed` | src/v4l2-mpp/apps/stream-webrtc/main.cpp:322-373 | So a viewer whose channel is open at every ping pass from thirty seconds on and, if it keeps alive, has ponged less than thirty seconds before each of them is never closed, however long the run: its connection is only what the library reports |
| `WebRtcProofs.RecycledAtItsAge` | src/v4l2-mpp/apps/stream-webrtc/main.cpp:336-343 | Over every run with a session timeout a viewer is made to close by the first ping pass that many seconds after it joined, and one that does not keep alive by nothing else |
| `WebRtcProofs.PingRecyclesIff` | src/v4l2-mpp/apps/stream-webrtc/main.cpp:330-359 | With a session timeout a ping pass makes a viewer close iff it is that old or a keep-alive viewer on an open channel has not ponged for thirty seconds |
| `WebRtcProofs.SplashRulesAgree` | src/v4l2-mpp/apps/stream-webrtc/main.cpp:213-232 | For the same history, in milliseconds truncated and in seconds, this server and the MJPEG server choose the same splash |
| `WebRtcProofs.ViewerIsNeverMisled` | src/v4l2-mpp/apps/stream-webrtc/main.cpp:213-269 | On every run of a viewer: no "connecting" after its first picture, no "interrupted" before thirty seconds without one while it is not closing, and between pictures the message only escalates |
| `WebRtcMedia.FramesReachTheTrack` | src/v4l2-mpp/apps/stream-webrtc/main.cpp:171-206 | Over every run the frames put on a viewer's track are, in order, exactly those relayed while it takes them and before it is made to close, and the pictures it was shown are those from the first keyframe on |
| `WebRtcMedia.LiveUntilSilent` | src/v4l2-mpp/apps/stream-webrtc/main.cpp:322-373 | With the session timeout off that end is the first ping pass that finds a keep-alive viewer silent |
| `WebRtcMedia.MessagesReachTheTrack` | src/v4l2-mpp/apps/stream-webrtc/main.cpp:234-251 | Over every run, until it is made to close, the splashes on a viewer's track are exactly the messages it was told |
| `WebRtcMedia.ViewerSilenceIsTold` | src/v4l2-mpp/apps/stream-webrtc/main.cpp:213-251 | After any run of a viewer that is not closing a splash round tells it exactly what its history earns: interrupted five seconds after its last picture, or thirty after joining without one; connecting from two seconds on; nothing before |
| `WebRtcMedia.MjpegSilenceIsTold` | src/v4l2-mpp/apps/stream-http/camera-stream.py:169-182 | And so does a pass of the MJPEG stream that brings nothing, after any run |
| `WebRtcMedia.TurningAwaySaysGoodbye` | src/v4l2-mpp/apps/stream-webrtc/main.cpp:289-293 | The pass that makes a viewer close gives it one second and sends it the goodbye its track takes |
| `WebRtcMedia.GoodbyeAtEveryPass` | src/v4l2-mpp/apps/stream-webrtc/main.cpp:295-301 | Over every run a closing viewer is sent one goodbye at each pass before its time that its track takes |
| `WebRtcMedia.PingedEverySecond` | src/v4l2-mpp/apps/stream-webrtc/main.cpp:365-371 | On an open channel a ping is noted iff a second has passed since the last one noted and it went out |
| `WebRtcMedia.ListedTracksGetTheirFrames` | src/v4l2-mpp/apps/stream-webrtc/main.cpp:197-206 | And after any run of the server every viewer on its list was sent just those frames and shown just those pictures |
| `WebRtcRuns.Take` | src/v4l2-mpp/apps/stream-webrtc/main.cpp:702-729 | Every turn of the server, its loop, its requests and its callbacks, computes in place the step on values that the run theorems are about |
| `WebRtcRuns.EveryViewerRanAlone` | src/v4l2-mpp/apps/stream-webrtc/main.cpp:197-545 | After any run of the server every viewer on its list is exactly what its own events alone would have made of a new one, whatever happened to the others, and the list is no longer than allowed |
| `WebRtcRuns.TurnKeepsRanAlone` | src/v4l2-mpp/apps/stream-webrtc/main.cpp:197-545 | One turn, whoever joins, leaves or is addressed in it, keeps that |
| `WebRtcRuns.ListedCandidatesAreConserved` | src/v4l2-mpp/apps/stream-webrtc/main.cpp:460-542 | So after any run of the server candidates are conserved for every viewer on its list |
| `WebRtcRuns.ListedViewersAreNotMisled` | src/v4l2-mpp/apps/stream-webrtc/main.cpp:213-284 | And, with a monotone clock, the three promises about messages hold for every viewer on it |
| `WebRtcRuns.ListedViewersCloseIffSilent` | src/v4l2-mpp/apps/stream-webrtc/main.cpp:322-373 | And, with the session timeout off as well, a viewer on it is closing iff one of the ping passes since it joined found it silent |
| `Nms.NmsBoxes` | src/v4l2-mpp/apps/detect-rknn-yolo11/detect-rknn-yolo11.py:82-109 | The loop that shrinks the order keeps what the greedy recursion keeps |
| `NmsOverlap.PassesIff` | src/v4l2-mpp/apps/detect-rknn-yolo11/detect-rknn-yolo11.py:99-106 | Short of sharing all there is, two boxes pass iff the shared area is at most the threshold's part of the union |
| `NmsOverlap.ApartPasses` | src/v4l2-mpp/apps/detect-rknn-yolo11/detect-rknn-yolo11.py:96-106 | Boxes with area, apart by the widening or more on an axis, pass at every threshold from zero up |
| `NmsOverlap.InsideSharesItself` | src/v4l2-mpp/apps/detect-rknn-yolo11/detect-rknn-yolo11.py:96-103 | Of a box inside another the shared part is that box, each side widened by a hundred-thousandth of a pixel |
| `NmsOverlap.DoubleFailsIff` | src/v4l2-mpp/apps/detect-rknn-yolo11/detect-rknn-yolo11.py:99-106 | At any threshold from zero up to one a box with area fails against its own double iff, widened, it covers no more than twice its area |
| `NmsOverlap.SidesMakeItNotTiny` | src/v4l2-mpp/apps/detect-rknn-yolo11/detect-rknn-yolo11.py:101-102 | Every box with sides of 0.000025 or more meets that |
| `NmsOverlap.TinyDoublePasses` | src/v4l2-mpp/apps/detect-rknn-yolo11/detect-rknn-yolo11.py:101-106 | A concrete box of a millionth of a pixel a side that passes against its own double |
| `NmsOverlap.HigherThresholdPasses` | src/v4l2-mpp/apps/detect-rknn-yolo11/detect-rknn-yolo11.py:106 | What passes at one threshold passes at every higher one |
| `NmsOverlap.LessSharedPasses` | src/v4l2-mpp/apps/detect-rknn-yolo11/detect-rknn-yolo11.py:105-106 | Of boxes as large in all, those that share no more pass where the others do, if those do not share all there is |
| `NmsOverlap.ApartAreAllKept` | src/v4l2-mpp/apps/detect-rknn-yolo11/detect-rknn-yolo11.py:82-109 | Boxes all apart from one another are all kept, in the order of their scores |
| `NmsOverlap.OnlyTheBestOfEquals` | src/v4l2-mpp/apps/detect-rknn-yolo11/detect-rknn-yolo11.py:82-109 | Of equal boxes that are not tiny only the best scored may be kept |
| `Nms.GreedyIsExact` | src/v4l2-mpp/apps/detect-rknn-yolo11/detect-rknn-yolo11.py:91-109 | An index is kept iff it passes the overlap test against every kept index before it |
| `Nms.KeptSetIsUnique` | src/v4l2-mpp/apps/detect-rknn-yolo11/detect-rknn-yolo11.py:91-109 | No other set of indexes has that property |
| `Nms.KeptApartDroppedDominated` | src/v4l2-mpp/apps/detect-rknn-yolo11/detect-rknn-yolo11.py:89-109 | Kept boxes are pairwise within the threshold, and each dropped one is overlapped above it by a kept box that scored at least as high |
| `Nms.SurvivorsPass` | src/v4l2-mpp/apps/detect-rknn-yolo11/detect-rknn-yolo11.py:105-107 | A turn of the loop leaves exactly the indexes that pass the test |
| `Nms.SurvivorsKeepOrder` | src/v4l2-mpp/apps/detect-rknn-yolo11/detect-rknn-yolo11.py:106-107 | And leaves them in their order |
| `Nms.GreedyDistinct` | src/v4l2-mpp/apps/detect-rknn-yolo11/detect-rknn-yolo11.py:91-109 | No index is kept twice |
| `Detections.PostProcess` | src/v4l2-mpp/apps/detect-rknn-yolo11/detect-rknn-yolo11.py:162-173 | The loop over classes reports what each class's own suppression keeps, by position among all boxes |
| `Detections.SuppressionStaysInItsClass` | src/v4l2-mpp/apps/detect-rknn-yolo11/detect-rknn-yolo11.py:162-173 | With every class visited, two reported boxes of a class never overlap above the threshold, and each dropped box is overlapped above it by a reported box of its own class that scored at least as high: nothing is dropped on account of another class |
| `Detections.KeptByItsClass` | src/v4l2-mpp/apps/detect-rknn-yolo11/detect-rknn-yolo11.py:162-173 | A box is reported iff its class was visited and that class's suppression kept it |
| `Detections.NoBoxTwice` | src/v4l2-mpp/apps/detect-rknn-yolo11/detect-rknn-yolo11.py:162-173 | No box is reported twice |
| `Detections.WhereIsExact` | src/v4l2-mpp/apps/detect-rknn-yolo11/detect-rknn-yolo11.py:164-167 | The positions picked for a class are exactly those of its boxes |
| `StartCodes.FindStarts` | assets/generate-splash.sh:65-72 | The scan that steps over found codes lists every 3-byte code there is and nothing else |
| `StartCodes.NoCodeMissed` | assets/generate-splash.sh:67-72 | No code begins in the bytes stepped over |
| `StartCodes.Normalize` | assets/generate-splash.sh:64-82 | The output is the input's NALs, each behind a 4-byte code |
| `StartCodes.NalsAreCodeFree` | assets/generate-splash.sh:65-80 | No NAL holds a start code |
| `StartCodes.JoinRoundTrip` | assets/generate-splash.sh:74-80 | NALs without codes, written behind 4-byte codes and read back, are the same NALs |
| `StartCodes.NormalizeKeepsWhatWasWritten` | assets/generate-splash.sh:64-82 | Whatever mix of 3-byte and 4-byte codes an encoder wrote, the output is exactly its NALs behind 4-byte codes, if none holds a code or ends in a zero before a 3-byte one |
| `StartCodes.NormalizeKeepsMeaning` | assets/generate-splash.sh:64-82 | The output splits into the same NALs as the input, and normalising twice changes nothing |
| `StartCodes.FindNalSeesEveryNal` | assets/generate-splash.sh:56-59 | On the output h264_find_nal matches exactly where a NAL was written, each one but an empty last one |
| `Rtsp.DynamicH264Stream.SendNewFrame` | src/v4l2-mpp/apps/stream-rtsp/main.cpp:48-63 | A frame is taken iff the stream is running and has none in hand |
| `Rtsp.Registry.DoGetNextFrame` | src/v4l2-mpp/apps/stream-rtsp/main.cpp:75-112 | The piece handed over is the next bytes of the frame, at most as many as asked for, with the rest reported as truncated; registered iff running |
| `Rtsp.Registry.DoStopGettingFrames` | src/v4l2-mpp/apps/stream-rtsp/main.cpp:115-127 | Stopping drops the frame in hand and the registration; registered iff running |
| `Rtsp.Registry.HandleClosure` | src/v4l2-mpp/apps/stream-rtsp/main.cpp:65-73 | Closing drops the registration; registered iff running |
| `Rtsp.Registry.StoreFrame` | src/v4l2-mpp/apps/stream-rtsp/main.cpp:166-179 | Every registered stream, and only those, is offered the frame |
| `Rtsp.Registry.CloseOldClients` | src/v4l2-mpp/apps/stream-rtsp/main.cpp:209-219 | Terminates with the count at the limit or where it was if lower; the streams that left were closed and the others are untouched; registered iff running |
| `Rtsp.PiecesAreTheFrames` | src/v4l2-mpp/apps/stream-rtsp/main.cpp:48-112 | Over every run without a stop, bytes handed over and bytes left are the accepted frames end to end |
| `Rtsp.OneFrameAtATime` | src/v4l2-mpp/apps/stream-rtsp/main.cpp:56-62 | A frame is accepted only once every earlier accepted one has been handed over whole |
| `Rtsp.AcceptedIff` | src/v4l2-mpp/apps/stream-rtsp/main.cpp:48-63 | After any events, no frame offered being empty, a frame is accepted iff the last of the requests, stops and closures is a request and every frame accepted since the last stop has been handed over whole; otherwise nothing changes |
| `Rtsp.AcceptedIsHandedOver` | src/v4l2-mpp/apps/stream-rtsp/main.cpp:75-112 | And it is handed over entire by as many requests above zero as it has bytes |
| `Rtsp.PiecesReassemble` | src/v4l2-mpp/apps/stream-rtsp/main.cpp:95-108 | Whatever sizes above zero are asked for, the pieces of a frame join to that frame and the stream is then idle |

## Left out

Taken as parameters or simplified:

- Sockets, poll, ioctl, mmap, pipes and clocks answer through parameters. A write script that runs out stands for a reader that takes nothing more until the timeout; a read script that runs out for a read timeout. Interrupted system calls are retried without a trace.
- The pipe is a FIFO with room for at least four bytes, and a write to it fails only when it is full.
- Slot numbers in the pipe are one byte in the code; they are below four in every run, so no truncation can occur.
- Each imposter call is one step, because it runs under one lock. The state before the first REQBUFS has static zero pointers where the model has unmapped slots; no slot is live then.
- Width, height and buffer size are unbounded; 64-bit overflow of their product is not modelled, the 4 MiB cap is.
- The imposter's configuration file, device path match, the mmap hint address, the not-initialised answers and the format and capability ioctls.
- Connections of the capture socket are told apart by history, never by a reused descriptor number.
- A peer connection counts as closed as soon as `close()` was called on it. libdatachannel calls are taken not to throw; a track, channel or description is whatever the parameter says.
- Viewer ids are the numbers the counter gives; an id text that is no such number finds nobody. JSON parsing, `handle_connection` and the dispatch on the request type; refused requests change nothing and are no turn of a run.
- Overlap and time are reals. The order that sorting the scores gives is a parameter; the theorems need only that it lists each box once, best first. A zero union fails the overlap test, as the quotient of a division by zero does.
- AcceptedIff: is about frames that are not empty, because the splitter hands over no others (`FramesAreAccessUnits`).
- live555's own state: whether it awaits data and how much room it has are parameters. Stream objects are destroyed through `Destroy`.
- ReadKeepsExactlyOnce: leaves out reads that begin with the overflow reset, because there the promise is lost; `OverflowLosesBytes` says so for every such read whose own bytes leave no frame open behind whole ones.
- WholePictureOrNone: covers NV12 and YUYV only, because for compressed pictures the property is false of the code; `CompressedPictureIff` gives the exact condition.

Not modelled, because it is input or output, foreign code, or would add only easy facts:

- HTTP handlers, pages, argument parsing, logging and RPC of the servers; what the missing splash image skips.
- `filter_boxes`, `dfl`, `box_process` and letterboxing around the suppression; the three-valued empty answer of `post_process`.
- `rtsp_flush`, opening and closing the H.264 socket as the set of streams empties, and the RTSP server itself.
- The capture programs' own loops, V4L2 capture, MPP encoding and the callback chain.
- The control service, the fake service, wait-for-frame and the init scripts.
- Rendering and encoding of the splash images around the start-code pass.
