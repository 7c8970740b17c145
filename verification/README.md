# Verified models of the CodeSamples logic

The samples in this repository are independent programs. Most of them are thin calls into libraries; the ones
modelled here hold logic of their own, and each has a module (or two) of its own.

* **The Google-calendar client** (`c/gmail-calendar`). `Loopback` is the one-shot capture of the redirect as a state
  machine: every statement that touches the shared record, the mutex or the condition variable is one atomic step,
  callbacks arrive in any number at any time, and wakeups may be spurious or timeouts. `LoopbackLifecycle` is the set-up
  and teardown around it. `PercentEncoding`, `Base64Url` and `SecureWrite` are the functions of `util.c`; `Forms` is an
  independent reader of `application/x-www-form-urlencoded` text; `OAuth` and `OAuthFlow` are `oauth.c` on top of them.
  `Calendar` is the token walk of `visit_event`.
* **The console progress bar** (`ProgressBar`, over `Terminal`, a line of cells with a cursor).
* **The linked list** (`LinkedList`), over nodes that are allocated and freed through an explicit `Memory`.
* **Video capture** (`CaptureQueue` for buffer ownership, `Yuv` for the colour conversion).
* **Time subtraction** (`TimeEx`).

C strings are Dafny strings of eight-bit characters without NUL (`Basics.IsCString`); a `char` buffer is an
`array<char>`. Whatever the environment decides (system call results, driver answers, match functions, random bytes,
the hash, the server's replies) is a parameter, so each theorem holds for every environment.

## Where the code departs from its intent

The code is modelled as it is written, and the exact condition under which it does what is intended is proved.

* `visit_event` reads one balanced object exactly when no first `dateTime` of a start or end object contains an object
  (`Calendar.ConsumesOneObject`, with an event on which it stops early in `Calendar.NestedDateTimeStopsEarly`).
* `list_remove`, `list_find` and `list_foreach` never advance their cursor; `RemoveAsWritten`, `FindAsWritten` and
  `ForEachAsWritten` say exactly when they settle. `Remove`, `Find` and `ForEach` have the advance added, and `Remove` also
  moves the tail when the last node goes.
* `list_remove_if` never updates the tail: `RemoveIf` leaves a freed one behind exactly when the last node is removed, and
  `RemoveIfWithTail` adds the missing reset. `PerformAll` and `Lifetime` use the completed operations;
  `PerformAllAsWritten` runs the functions as they are, up to the first `list_remove` that does not return or the first
  `list_add` that would write through the freed tail.
* `SubtractTime` is exact precisely when no hour borrow happens (`TimeEx.ExactIff`); otherwise it is late
  by a day and by what each month walked back over gains (`TimeEx.LatenessIs`), even for some subtractions within one day,
  such as 01:00:00 minus an hour (`TimeEx.OneOClockMinusAnHour`).
* `oauth_save_config` writes its values without escaping: the saved text reads back as them exactly when none contains a
  quote (`OAuthFlow.ConfigReadsBack`).
* The animation index of the progress bar is a 32-bit `int`: a tick throws once it has wrapped to a negative value that
  is no multiple of four (`ProgressBar.RunThrowsIff`).
* The progress bar's timer reads the progress twice without keeping `Report` out, so one text can show the blocks of one
  value and the percentage of another; `ProgressBar.OneValueIff` says exactly when it does not.
* `process_image` gives `YUV422toRGB888` an output buffer of the driver's byte count, but three bytes are written for each
  pixel: the stores stay inside exactly when `size >= 3 * width * height` (`Yuv.ProcessImage`), which a frame's own
  2 * width * height bytes never are unless the image is empty (`Yuv.FrameSizeIsTooSmall`).
* The moving pointers of `YUV422toRGB888` follow the pixel format exactly when the width is even, or the image is tiny
  (`Yuv.FollowsFormatIff`).
* A negative `frame_count` wraps to a huge unsigned count (`CaptureQueue.FrameCountIff`).

## Model

| member | source | states |
|---|---|---|
| PercentEncoding.UrlEncode | c/gmail-calendar/src/util.c:138-160 | the whole buffer after the call, in both outcomes: the terminated encoding when it is shorter than the capacity, otherwise -1 and the encoding of the longest prefix that left room; nothing else is written |
| PercentEncoding.SuccessIsFit | c/gmail-calendar/src/util.c:138-160 | for every capacity the return value is the encoded length exactly when the encoding fits and an `int` can count it; up to a capacity of 2^31 it is non-negative exactly when the encoding fits |
| PercentEncoding.DecodeEncode | c/gmail-calendar/src/util.c:138-160 | an independent percent-decoder, reading '+' either way, gives back every C string (section 2.1 of RFC 3986) |
| PercentEncoding.EncodeInjective | c/gmail-calendar/src/util.c:138-160 | different strings never share an encoding |
| PercentEncoding.EncodeAlphabet | c/gmail-calendar/src/util.c:131-156 | the output holds only unreserved characters and '%', between one and three per input character |
| PercentEncoding.EscapeShape | c/gmail-calendar/src/util.c:148-154 | every other octet becomes '%' and two upper-case hexadecimal digits of its value (section 2.1 of RFC 3986) |
| PercentEncoding.UnreservedCodes | c/gmail-calendar/src/util.c:131-136 | the characters left alone are, by their ASCII codes, letters, digits and the four marks of section 2.3 of RFC 3986 |
| PercentEncoding.FixedPoint | c/gmail-calendar/src/util.c:131-136 | a string is its own encoding exactly when all its characters are unreserved (section 2.3 of RFC 3986) |
| Base64Url.B64UrlEncode | c/gmail-calendar/src/util.c:18-42 | succeeds exactly when the padded block and a NUL fit; the in-place loop then leaves the terminated unpadded text at the start of the buffer and nothing is written past the padded block |
| Base64Url.CompactedBlockIsUrlText | c/gmail-calendar/src/util.c:30-39 | stripping and translating the padded block (section 4 of RFC 4648) gives the section 5 text defined directly |
| Base64Url.UrlTextShape | c/gmail-calendar/src/util.c:18-42 | that text has ceil(4n/3) characters, all unreserved, so url_encode leaves it as it is |
| Base64Url.StandardVectors | c/gmail-calendar/src/util.c:18-42 | the text of the test vectors of section 10 of RFC 4648, unpadded |
| Base64Url.UrlSafeVectors | c/gmail-calendar/src/util.c:36-37 | texts that use '-' and '_' where section 4 has '+' and '/' |
| Base64Url.DecodeIff | c/gmail-calendar/src/util.c:18-42 | a strict decoder accepts a string as the bytes b exactly when it is the text of b |
| Base64Url.UrlTextInjective | c/gmail-calendar/src/util.c:18-42 | byte strings of any lengths with the same text are equal |
| SecureWrite.WriteFileSecure | c/gmail-calendar/src/util.c:78-99 | true exactly when the temporary name fits and no system call fails, which is for the environments of Succeeds; in every recorded state but the last of a success only the temporary file differs; a success leaves the new contents and no temporary file; a failure after opening the temporary file leaves it behind exactly when the final unlink fails too; a path whose temporary name is too long touches nothing |
| SecureWrite.WriteAll | c/gmail-calendar/src/util.c:87-94 | the write loop ends, and has written everything exactly when every call made progress |
| SecureWrite.WriteLoopMeaning | c/gmail-calendar/src/util.c:89-94 | completion uses at most one call per byte, all answered with progress; otherwise some answer made none |
| SecureWrite.TargetIsAtomic | c/gmail-calendar/src/util.c:78-99 | in every such state the target holds its old or the whole new contents, and every other file is untouched |
| Forms.ParseEncodedForm | c/gmail-calendar/src/oauth.c:272-281 | splitting on '&' and '=' and percent-decoding an encoded form gives back its fields in order |
| Forms.QueryReadsBack | c/gmail-calendar/src/oauth.c:272-281 | the same for text built parameter by parameter as a format string does, where plain values are inserted unencoded |
| OAuth.CodeBodyReadsBack | c/gmail-calendar/src/oauth.c:265-281 | the code-exchange body reads back as its six fields, the unencoded verifier among them (section 4.1.3 of RFC 6749, section 4.5 of RFC 7636) |
| OAuth.RefreshBodyReadsBack | c/gmail-calendar/src/oauth.c:323-338 | the refresh body reads back as its four fields (section 6 of RFC 6749) |
| OAuth.AuthQueryReadsBack | c/gmail-calendar/src/oauth.c:231-251 | the authorization query reads back as its eight parameters, whatever the scope text |
| OAuth.MakePkce | c/gmail-calendar/src/oauth.c:141-151 | for any 32 random bytes and any hash: success, a 43-character verifier that encodes the bytes and a 43-character challenge that encodes its hash (sections 4.1 and 4.2 of RFC 7636) |
| OAuth.EncodeInto | c/gmail-calendar/src/oauth.c:231-237 | encoding into a fixed buffer and reading it as a C string gives the encoding exactly when it fits |
| OAuthFlow.PkceBinding | c/gmail-calendar/src/oauth.c:219-281 | what the servers read of one flow, every field and constant spelled out: the request announces the hash of exactly the verifier the token body presents, for the same client and redirect (section 4.6 of RFC 7636) |
| OAuthFlow.AuthUrlReadsBack | c/gmail-calendar/src/oauth.c:227-251 | the URL is the endpoint and a query that reads back as the eight parameters |
| OAuthFlow.ConstantsSpelled | c/gmail-calendar/src/oauth.c:12-17 | the scope and the authorization endpoint |
| OAuthFlow.RefreshReadsBack | c/gmail-calendar/src/oauth.c:323-338 | the refresh request reads back as grant type refresh_token, client, secret and token |
| OAuthFlow.AuthUrlFits | c/gmail-calendar/src/oauth.c:227-251 | once the client id's encoding fits, the other encodings and the URL always fit: the overflow return is unreachable |
| OAuthFlow.CodeBodyFits | c/gmail-calendar/src/oauth.c:265-281 | once the three encodings fit, the code-exchange body always fits |
| OAuthFlow.RefreshBodyFits | c/gmail-calendar/src/oauth.c:323-338 | once the three encodings fit, the refresh body always fits |
| OAuthFlow.GcalOauth.Load | c/gmail-calendar/src/oauth.c:60-118 | true exactly when both required strings are present and fit; the record is then valid, with every optional field loaded or defaulted and the port in 1..65535 |
| OAuthFlow.ConfigReadsBack | c/gmail-calendar/src/oauth.c:123-132 | split at its quotes, the saved text gives each value after its own name, and the port after its own, exactly when no value contains a quote |
| OAuthFlow.GcalOauth.Save | c/gmail-calendar/src/oauth.c:120-135 | a valid record's text always fits, so only the file system decides, and the file changes all or nothing to that text |
| OAuthFlow.ShortenedPathIsNeverWritten | c/gmail-calendar/src/oauth.c:63 | a configuration path that had to be shortened is never written to by a later save |
| OAuthFlow.GcalOauth.RunAuthFlow | c/gmail-calendar/src/oauth.c:217-313 | exactly when each request is sent and with which text, exactly when the refresh token changes, and exactly when the flow succeeds |
| OAuthFlow.GcalOauth.RefreshRequest | c/gmail-calendar/src/oauth.c:315-338 | a request is built exactly when a token is present and the three encodings fit |
| Loopback.StepKeepsInv | c/gmail-calendar/src/loopback.c:88-109 | every step of every party keeps mutual exclusion, the one-shot capture, the pending wakeup, the waiter's bookkeeping and the teardown order |
| Loopback.RunKeepsInv | c/gmail-calendar/src/loopback.c:72-221 | so does every interleaving |
| Loopback.RecordChangesUnderMutex | c/gmail-calendar/src/loopback.c:88-109 | a step that changes the shared record belongs to the first callback, which holds the mutex and has not announced it yet |
| Loopback.ReceivedOnce | c/gmail-calendar/src/loopback.c:89-106 | once received is set, the record never changes again in the rest of any run |
| Loopback.TimedOutIff | c/gmail-calendar/src/loopback.c:207-212 | over every interleaving the waiter counts as timed out exactly when the wait timed out, never from a spurious wakeup or a broadcast |
| Loopback.FirstIsFirstCaller | c/gmail-calendar/src/loopback.c:88-89 | the callback that captures is the one that was the first to run |
| Loopback.ResultIsFirstCode | c/gmail-calendar/src/loopback.c:206-221 | in terms of the run's actions alone: the waiter looks once; without a timeout before that something is received; true is returned exactly when it is and the code that the first callback to run arrived with is non-empty, shorter than 1024 and shorter than the caller's buffer, which then starts with that code, terminated, and otherwise is untouched |
| Loopback.NoCallbackAfterDestroy | c/gmail-calendar/src/loopback.c:232-239 | given that stop and task wait end the server, no callback step is possible once the mutex is destroyed |
| Loopback.StaysDecisive | c/gmail-calendar/src/loopback.c:207-212 | once something is received or the wait has timed out, no step of any party undoes that |
| Loopback.NeverStuck | c/gmail-calendar/src/loopback.c:207-212 | from then on some step of the protocol's own is always enabled until the waiter returns: no wakeup is lost |
| Loopback.OwnRunsAreBounded | c/gmail-calendar/src/loopback.c:207-212 | and every run of such steps is bounded, and has ended with the waiter's return when none is possible any more |
| Loopback.WaiterReturns | c/gmail-calendar/src/loopback.c:207-239 | so from every such state the protocol's own steps alone bring the waiter to its return |
| Loopback.CodeCanArrive | c/gmail-calendar/src/loopback.c:72-221 | whatever code arrives first, some run without a timeout serves it and returns |
| Loopback.TimeoutCanHappen | c/gmail-calendar/src/loopback.c:207-221 | a waiter nothing reaches is asleep again after a spurious wakeup, and returns false after a timeout |
| Loopback.SectionCaptures | c/gmail-calendar/src/loopback.c:88-109 | the handler's whole critical section captures and terminates the first usable code, only records the arrival of an unusable one, and changes nothing later |
| Loopback.Context.Capture | c/gmail-calendar/src/loopback.c:88-109 | the handler's statements have exactly the effect of the state machine's steps from lock to unlock |
| Loopback.Context.Deliver | c/gmail-calendar/src/loopback.c:214-220 | the waiter's copy-out has exactly the effect of its two steps |
| LoopbackLifecycle.WaitForCode | c/gmail-calendar/src/loopback.c:137-241 | for every pattern of set-up failures the log is the acquisitions made followed by their releases in reverse order |
| LoopbackLifecycle.WhatIsAcquired | c/gmail-calendar/src/loopback.c:142-199 | each resource is acquired exactly when its own step and all before it succeed |
| LoopbackLifecycle.NestedAndBalanced | c/gmail-calendar/src/loopback.c:142-239 | such a log releases only what was acquired last, each resource once, and leaves nothing held |
| Calendar.JsonReader.VisitEvent | c/gmail-calendar/src/calendar.c:43-124 | the nested loops, on any token stream, end as the function Walk says, with the same event and position |
| Calendar.JsonReader.VisitObject | c/gmail-calendar/src/calendar.c:43-124 | in cursor positions: for an event object anywhere in a stream the visit succeeds on the object's last token exactly under the condition below, with each field filled by the properties of its own name |
| Calendar.EventOfMeaning | c/gmail-calendar/src/calendar.c:58-110 | each field of the event is filled by the properties of its own name alone: the last string that fits, or the start or end object's first dateTime, or "(all-day)" |
| Calendar.ConsumesOneObject | c/gmail-calendar/src/calendar.c:50-116 | on every event object, whatever follows it, the walk ends on the object's own end exactly when no first dateTime of a start or end object contains an object; it then has read that event, field by field |
| Calendar.StartAndEnd | c/gmail-calendar/src/calendar.c:78-109 | a concrete event: the start's dateTime is the start, the end's is the end |
| Calendar.NestedDateTimeStopsEarly | c/gmail-calendar/src/calendar.c:96-108 | a concrete event on which it stops inside the object |
| Calendar.SkipsOneValue | c/gmail-calendar/src/calendar.c:111-115 | skipping from a value's first token lands just after its last, whatever the nesting |
| Calendar.FindsFirst | c/gmail-calendar/src/calendar.c:84-91 | the property search finds the first occurrence, or ends past the object, as the code's comment promises |
| ProgressBar.DeltaShows | csharp/YoutubeExplodeCmd/YoutubeExplodeCmd/ProgressBar.cs:71-98 | the incremental output replaces the shown text by the new one and blanks, and touches nothing left of it |
| ProgressBar.DeltaRefinesRedraw | csharp/YoutubeExplodeCmd/YoutubeExplodeCmd/ProgressBar.cs:71-98 | its effect on the screen is that of erasing and redrawing |
| ProgressBar.RunShowsText | csharp/YoutubeExplodeCmd/YoutubeExplodeCmd/ProgressBar.cs:38-112 | after every run of reports, ticks (with any reports between their two reads) and disposals the line shows exactly the current text; after a Dispose it stays blank |
| ProgressBar.StepKeepsInv | csharp/YoutubeExplodeCmd/YoutubeExplodeCmd/ProgressBar.cs:38-112 | each operation keeps that, and a disposed bar's screen no longer changes |
| ProgressBar.FreshRunShowsText | csharp/YoutubeExplodeCmd/YoutubeExplodeCmd/ProgressBar.cs:24-112 | the same from a new bar; a run without ticks, as under redirected output, writes nothing |
| ProgressBar.RunDraws | csharp/YoutubeExplodeCmd/YoutubeExplodeCmd/ProgressBar.cs:38-64 | after any run of a new bar that ends with a tick the text shows the blocks of the last value reported before it, the percentage of the last one reported by its second read, both cut to 0..1, and the animation frame of the tick's own number |
| ProgressBar.TickDraws | csharp/YoutubeExplodeCmd/YoutubeExplodeCmd/ProgressBar.cs:51-65 | a live tick shows the progress found at each of its two reads and the frame of the index; without the bar just the frame |
| ProgressBar.TickTextReads | csharp/YoutubeExplodeCmd/YoutubeExplodeCmd/ProgressBar.cs:54-59 | what a drawn text says: block i is filled exactly when the first read of the progress has reached (i + 1) tenths, the digits are the whole percentage of the second read, the last character is the frame |
| ProgressBar.OneValueIff | csharp/YoutubeExplodeCmd/YoutubeExplodeCmd/ProgressBar.cs:54-59 | a drawn text is one that a single progress value gives exactly when both reads lie in the same tenth, and exactly then the filled blocks are the tenths of the percentage |
| ProgressBar.TickTextShape | csharp/YoutubeExplodeCmd/YoutubeExplodeCmd/ProgressBar.cs:51-64 | whatever the two reads give, every drawn text is printable and, with the bar shown, nineteen characters long |
| ProgressBar.RunThrowsIff | csharp/YoutubeExplodeCmd/YoutubeExplodeCmd/ProgressBar.cs:56-63 | from a new bar some tick throws exactly when more than 2147483649 ticks come before the first Dispose |
| ProgressBar.Bar.UpdateText | csharp/YoutubeExplodeCmd/YoutubeExplodeCmd/ProgressBar.cs:71-98 | the method plays exactly that output and remembers the new text |
| ProgressBar.Bar.TimerHandler | csharp/YoutubeExplodeCmd/YoutubeExplodeCmd/ProgressBar.cs:45-69 | the whole new state for any reports between its two reads of the progress, that its text says both, that it stays valid, and exactly when it throws |
| ProgressBar.Bar.Report | csharp/YoutubeExplodeCmd/YoutubeExplodeCmd/ProgressBar.cs:38-43 | progress becomes the clamped value, nothing else changes |
| ProgressBar.Bar.Dispose | csharp/YoutubeExplodeCmd/YoutubeExplodeCmd/ProgressBar.cs:105-112 | the whole new state; the line is blank |
| LinkedList.List.constructor | c/utils/src/list.c:19-29 | an empty valid list |
| LinkedList.List.Add | c/utils/src/list.c:31-68 | appends one fresh node, the only object issued, or changes nothing when there is no memory; only with memory must the tail be right |
| LinkedList.List.RemoveAsWritten | c/utils/src/list.c:70-121 | settles exactly for a null node, an empty list or the head node, whatever the number of passes; only the head is ever removed, and the tail is reset exactly when it was that node |
| LinkedList.List.RemovePassAsWritten | c/utils/src/list.c:87-112 | one pass on another node changes nothing, not even the cursor's place |
| LinkedList.List.Remove | c/utils/src/list.c:70-121 | with the advance and the tail reset: succeeds exactly for a node of the list, removes and frees just that node wherever it stands, and otherwise changes nothing; nothing is issued |
| LinkedList.List.RemoveIf | c/utils/src/list.c:221-267 | on any list whose chain and count are right: the head chain, the count and the freed nodes are exact; a right tail stays right exactly when the last node is kept and is a freed node otherwise; a freed one stays so |
| LinkedList.List.RemoveIfWithTail | c/utils/src/list.c:221-267 | with the tail reset the full invariant always survives |
| LinkedList.KeptIsFilteredPrefix | c/utils/src/list.c:237-261 | what is left is the unmatched part of the visited prefix, then the untouched suffix |
| LinkedList.KeptAndRemoved | c/utils/src/list.c:237-261 | every node is either kept or removed, none twice |
| LinkedList.TailAfterFilter | c/utils/src/list.c:241-254 | the old last node is still last exactly when it is not reached or not matched |
| LinkedList.List.ChainIsAcyclic | c/utils/src/list.c:5-16 | a head chain that ends visits no node twice |
| LinkedList.List.Find | c/utils/src/list.c:195-219 | with the advance: the first node the match function accepts |
| LinkedList.List.FindAsWritten | c/utils/src/list.c:195-219 | as written: only ever the head, and only once the match function accepts it |
| LinkedList.List.ForEach | c/utils/src/list.c:269-295 | with the advance: the values up to the first stop, in order |
| LinkedList.List.ForEachAsWritten | c/utils/src/list.c:269-295 | as written: the head's value again and again until the action stops |
| LinkedList.List.Destroy | c/utils/src/list.c:297-317 | frees every node and then the list, each once, nothing else, and reads no freed node |
| LinkedList.List.NodeAt | c/utils/src/list.c:141-175 | walking from the head node by next nodes reaches the k-th node |
| LinkedList.PerformAll | c/utils/src/list.c:31-267 | every run of add, remove and remove-if on a new list refines the same run on a plain sequence; besides its nodes, only the list itself is live that was not before |
| LinkedList.Lifetime | c/utils/src/list.c:19-317 | from creation through any such run to list_destroy: live is exactly what was live before, everything issued in between is freed, and nothing is freed twice |
| LinkedList.PerformAllAsWritten | c/utils/src/list.c:31-267 | a run of the functions as written is right up to the first operation that hangs or is an addition after a remove-if that removed the last node; there the tail is a freed node |
| LinkedList.RemoveAtAsWritten | c/utils/src/list.c:87-112 | list_remove as written for the node at a position: settles exactly at the head or on an empty list |
| CaptureQueue.Capture.StartCapturing | c/video_capture_v4l2/capture.c:328-374 | on success every buffer is with the driver |
| CaptureQueue.Capture.ReadFrame | c/video_capture_v4l2/capture.c:179-269 | neither assertion can fail, each answer has its outcome, exits exactly on a fatal one and counts exactly the buffers handed out; on every normal return all buffers are queued as before |
| CaptureQueue.Capture.MainLoop | c/video_capture_v4l2/capture.c:271-308 | exits exactly when the first select error, select timeout, failed dequeue or buffer not requeued comes before enough frames, finishes exactly when enough frames come before any of these, with exactly the requested number of frames and all buffers queued; at most one buffer is held on an exit, and the frames seen are counted exactly |
| CaptureQueue.Capture.AwaitFrame | c/video_capture_v4l2/capture.c:278-306 | skips interruptions and EAGAIN up to the first frame or fatal event |
| CaptureQueue.EventKinds | c/video_capture_v4l2/capture.c:292-305 | event by event, which are fatal, which are frames and which are neither |
| CaptureQueue.Capture.StopCapturing | c/video_capture_v4l2/capture.c:310-326 | on success every buffer is back with the application |
| CaptureQueue.Capture.Session | c/video_capture_v4l2/capture.c:752-755 | exactly when a session finishes and when it is still running; one that finishes has processed the requested frames and released every buffer once |
| CaptureQueue.Capture.Uninit | c/video_capture_v4l2/capture.c:376-398 | every buffer is released once, in order, up to a failing munmap |
| CaptureQueue.FrameCountIff | c/video_capture_v4l2/capture.c:273-277 | the number of frames is the given count exactly when that is not negative |
| Yuv.Convert | c/video_capture_v4l2/capture.c:79-108 | for a destination of any size: the moving pointers draw exactly the pixels of the indexed definition and write nothing else, or stop at the first pixel that would leave the destination, exactly when it is shorter than three bytes per pixel |
| Yuv.FollowsFormatIff | c/video_capture_v4l2/capture.c:85-105 | that definition reads the chroma bytes the format prescribes exactly when the width is even, or the image has one line, or it is one pixel wide and at most two high |
| Yuv.PixelReads | c/video_capture_v4l2/capture.c:85-105 | with an even width pixel k is the three formulae on luma byte 2k, U byte 4(k/2)+1 and V byte 4(k/2)+3 |
| Yuv.LumaIsKept | c/video_capture_v4l2/capture.c:95-97 | where nothing is cut off, the BT.601 luma of the three channels is the luma read, to within the truncation |
| Yuv.SourceFitsIff | c/video_capture_v4l2/capture.c:85-105 | the reads stay within 2 * width * height bytes exactly when the width is even or there is not just one line, and need all of them when it is even |
| Yuv.ProcessImage | c/video_capture_v4l2/capture.c:163-172 | with an output buffer of the driver's byte count the whole image is drawn exactly when that count is at least 3 * width * height |
| Yuv.FrameSizeIsTooSmall | c/video_capture_v4l2/capture.c:167-168 | the byte count of a frame in this format is that large only for an empty image |
| Yuv.NeutralIsGrey | c/video_capture_v4l2/capture.c:95-97 | neutral chroma gives grey of the luma value |
| Yuv.ChannelsAreMonotone | c/video_capture_v4l2/capture.c:91-97 | each clipped channel is monotone in each chroma value |
| TimeEx.SubtractTime | c/TimeEx/timeex.c:27-99 | the branches and the month loop compute Subtracted, or INDEFINITE_TIME for a count that is not positive |
| TimeEx.ExactIff | c/TimeEx/timeex.c:35-95 | the result is the given number of seconds earlier exactly when no hour borrow happens, and otherwise at least a day late |
| TimeEx.LatenessIs | c/TimeEx/timeex.c:47-95 | otherwise it is late by exactly one day and what the walk back over the months gains |
| TimeEx.WalkGains | c/TimeEx/timeex.c:52-90 | the walk names a day late by exactly the excess of each month passed |
| TimeEx.ExcessIs | c/TimeEx/timeex.c:66-89 | that excess, month by month: none in January, March, May and July, two in April and June, one from August on, and in February it depends on the two leap-year rules |
| TimeEx.HourBorrowIff | c/TimeEx/timeex.c:37-47 | the hour borrow happens exactly outside three ranges of the second count |
| TimeEx.OneOClockMinusAnHour | c/TimeEx/timeex.c:35-51 | a concrete failure within one day |
| TimeEx.Borrow60Conserves | c/TimeEx/timeex.c:37-45 | the second and minute borrows conserve the total exactly, and leave a proper field exactly when the debt is no multiple of sixty |
| TimeEx.BorrowDayGainsADay | c/TimeEx/timeex.c:47-50 | the day borrow as written always gains a day |
| TimeEx.WalkIsNotEarly | c/TimeEx/timeex.c:52-90 | the month walk ends in a real month on a day of at least 1, only goes backwards and never names an earlier day |
| TimeEx.SameDayOneMonthBack | c/TimeEx/timeex.c:56-89 | going back one month with the true length, across year ends as well, keeps the day |
| TimeEx.IsLeapYearIsLeap | c/TimeEx/timeex.c:15-25 | the test is the Gregorian rule, for negative years as well |

## Left out

- The interleavings of loopback.c are steps of a state machine, since Dafny has no threads; `Loopback.Context` ties its
  record to the C statements. Memory ordering weaker than the mutex, the HTTP response and the query parser (the code
  found is a parameter) are not modelled.
- The 200 ms pause before teardown, printing, the browser launch, sockets, TLS and the HTTP helper.
- SHA-256 is an arbitrary function to 32 bytes; random bytes are arbitrary; EVP_EncodeBlock is a stand-in defined by section 4 of RFC 4648.
- Base64Url.B64UrlEncode: requires an encoded length below 2^31 when the buffer has room for it, since the C function
  counts it in an `int` and passes the input length as one.
- The JSON library: only the reader operations used, on token sequences; a failed string copy is taken to leave its
  buffer alone, and a search that fails on a malformed stream is taken to leave the reader at its end.
- Parsing the saved configuration back as JSON: the parser is not part of this model; reading stops at its quotes.
- The token endpoint's replies are parameters; `oauth_get_access_token` is modelled up to the request it posts.
- Durability across power loss in `write_file_secure`: there is no fsync; other processes do not touch the same paths.
- Line wrapping, other console output and NaN progress; progress and colour arithmetic use exact reals, not doubles.
- The NULL checks on list handles and callback pointers; `list_get_count` and `list_get_node_value`, which only read a field.
- LinkedList.List.Add: `count` is unbounded, `size_t` wrap-around is not modelled.
- LinkedList.List.RemoveIf: the match function does not modify the list while it is being filtered.
- Yuv.Convert: dimensions are non-negative (a negative one draws nothing in C); of the pixel at which the stores would leave
  the destination none is drawn, where C may still store one or two of its bytes inside.
- The image writer and the device set-up ioctls.
- `gmtime` and `mktime` are a fixed UTC scale; local time zones are not modelled.
- TLS, database, audio, speech, Windows UI and tar samples: library calls, or unfinished code.
