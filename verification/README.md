# A verified model of server-5204

Server-5204 is a key-value server's network core: a length-prefixed packet protocol over growing
buffers, an indentation-structured configuration file, a worker pool with two thread-safe queues,
an IP filter, two event backends, and a few small containers and codecs. This project models that
code in Dafny and proves what it is meant to guarantee.

`dafny verify dfyconfig.toml` checks everything. Every lemma turns automatic induction off
(`{:induction false}`), so each inductive proof is the one that is written; `hide` statements keep
the proofs small.

| file | what it models |
|---|---|
| `Octets.dfy`, `Wire.dfy` | the packet format: encoder, decoder, and the grammar between them |
| `Protocol.dfy` | the packet format with every byte and bound written out, and what decoder and encoder do in its terms |
| `Stalls.dfy` | input that the decoder waits on for ever |
| `Buffers.dfy` | `Buffer`: offsets into an array, compaction, growth, records |
| `Sockets.dfy` | a socket whose behaviour is scripted call by call, and loops of calls to it |
| `Responses.dfy` | read, parse and response as functions of the buffer and the kernel's answers |
| `Links.dfy` | `Link` over such a socket |
| `Delivery.dfy` | a sending and a receiving `Link` under every schedule of partial transfers |
| `Drainage.dfy` | when everything that was sent gets through |
| `ConfigText.dfy` | one configuration line read and printed; `fgets` |
| `ConfigLines.dfy` | lines and files with every character and length written out, and what the loader and save do in these terms |
| `ConfigTree.dfy` | configuration trees as values, load as a fold, save, and the round trip |
| `ConfigLimits.dfy` | which trees survive it, the length of lines included |
| `ConfigArena.dfy` | the nodes with their parent pointers; the loader's cursor; agreement with the fold |
| `ConfigNesting.dfy` | which line hangs under which, from the indents alone |
| `ConfigPaths.dfy` | lookup and creation of nodes by path |
| `ConfigUpdates.dfy` | what `set` does to the tree, and which updates survive save and load |
| `ConfigFile.dfy` | the `Config` objects themselves, holding such nodes |
| `Pool.dfy`, `PoolProgress.dfy` | `Queue`, `SelectableQueue` and `WorkerPool` as threads stepping in any order |
| `Strings.dfy`, `IpFilter.dfy` | the order of strings; the filter |
| `Options.dfy` | values that may be missing |
| `SortedSet.dfy`, `LinkedList.dfy` | the scored set; the intrusive list |
| `Fdevents.dfy`, `Epoll.dfy`, `Server.dfy` | the select and epoll backends, their agreement, the event loop |
| `Escape.dfy` | the escape codec and the line codec |

## What is proved

- **Decoding is exactly a grammar.** `Link::parse` returns a packet if and only if the input starts
  with blank lines, records and a closing line (`Wire.ParseExact`). What a sender writes is in the
  grammar, so it comes back whatever follows it, and any proper prefix of it is waited for and never
  refused. Bodies may hold any bytes.
- **What is refused.** parse refuses its input if and only if whole records are followed by a line that
  is neither empty nor a length, or take more than 134217728 bytes (`Protocol.RefusesExactly`), with
  every byte of the format written out, as in `Protocol.ReturnsExactly` and `Protocol.EncodedExactly`.
- **End-to-end delivery.** For two links on the heap and every schedule of sends, partial writes,
  network transfers, chunked reads and polls, what was returned is a prefix of the non-empty packets
  sent, and all of them once nothing is on the way (`Delivery.Channel.Run`). A poll never fails.
  However often the two kernels refuse on the way, enough rounds bring everything
  (`Drainage.Drain`).
- **Buffers** keep their bounds, never copy overlapping ranges, and grow within the stated limit.
- **Waiting for a packet.** `response` never asks the kernel for zero bytes (`Responses.NotReadyAsks`),
  returns the first packet of the stream, and with one there gives up only because the kernel did.
- **Configuration.** The parent-pointer loader builds the tree of a simple fold; loaded trees are
  canonical; loading what was saved gives back exactly the canonical trees whose lines fit the
  loader's buffer; indentation means nearest-ancestor nesting; `set` and `get` agree and disturb
  nothing else; an updated tree survives save and load exactly if the path and the value keep to what
  lines can hold (`ConfigUpdates.SetSurvivesExactly`). A line is read as what it is and as nothing else
  (`ConfigLines.ReadExactly`), and `get` and `set` lead where dots and slashes lead on the objects.
- **Worker pool.** For any number of threads and any interleaving: no job lost or run twice, no
  wakeup lost, a reader with a byte always finds a result, and the pool only stops when all pushed
  work is done; without new calls it stops after a bounded number of steps
  (`PoolProgress.AllGetsDone`).
- **Filter.** The single ordered-set lookup equals a scan of all rules for exactly the rule sets
  without nested rules. An address here is any text of digits and dots, not only four octets. Filled
  with texts of which none starts another, a filter answers just as the texts say (`IpFilter.Answer`).

## Where the code falls short of its documentation

Each with an input, and with the exact condition for all inputs.

- `IpFilter`: with nested rules a matching rule can be missed, even two exact ones such as 1.2.3.4
  and 1.2.3.45 (`IpFilter.NestedExample`, `IpFilter.LookupIsScanExactly`).
- `Fdevents::set`: a call that overlaps the subscribed bits does nothing at all, so asking for In and
  Out where In is subscribed leaves Out out (`Fdevents.SetDropsOut`, `Fdevents.SetSubscribesExactly`).
- `Fdevents::set` with an empty mask: the epoll backend registers a descriptor without subscription,
  and the kernel refuses the next set for it (`Epoll.EmptyMaskExample`); the select backend raises
  maxfd (`Fdevents.RaisedMaxfdExample`). The contracts of `Epoll.Epoll.Set` and `Fdevents.Select.Set` say exactly when.
- `Fdevents::clr` of the select backend scans for the new maxfd without a lower end, and leaves the table
  when the last subscription goes (`Fdevents.ClrExample`, and the result of `Fdevents.Select.Clr`).
- `Buffer::nice`: bytes.h says that `Bytes` handed out stay valid. A view in front of the data keeps
  its bytes exactly if nothing moves or it starts at or behind the number of bytes moved
  (`Buffers.ViewOverwritten`, `Buffers.ViewSurvivesExactly`), as everything in the second half of the
  array does.
- `Link::parse` takes a record that is followed by anything but a line end as "not ready", not as an
  error, and so waits for ever (`Stalls.StuckExample`, `Stalls.WaitsForeverExactly`).
- `Link::send` ignores the results of its appends, so a packet may be written in part
  (`Links.PartialExample`, `Links.WrittenWholeExactly`).
- `Link::response` on a non-blocking link drops out with a complete packet in its buffer when the
  stream ends, or fails, right behind it (`Responses.RefusedExample`, `Responses.RefusedExactly`).
- config.h says that keys contain no white space; the loader accepts it inside a key
  (`ConfigText.SpacedKeyExample`, `ConfigText.SpacedKeyExactly`).
- `Config::load` drops the last character of every chunk of `fgets`, line feed or not
  (`ConfigText.DroppedExample`, `ConfigText.NothingDroppedExactly`), so a tree with a line too long
  for its buffer does not survive save and load (`ConfigLimits.TooLongExample`,
  `ConfigLimits.LoadSaveExact`).
- `Config::load` accepts a first entry indented by one tab (`ConfigTree.FirstIndentExample`,
  `ConfigTree.AcceptedExactly`).

## Model

| member | source | states |
|---|---|---|
| Wire.IntDigits | server-5204/util/bytes.cpp:121-123 | the printed length of any int-sized body reads back as that length, fits the 16-byte buffer, and holds no line feed |
| Wire.ParseComplete | server-5204/link.cpp:366-457 | input that starts with a spelled packet (blank lines, records with LF or CR LF, closing line, within MAX_PACKET_SIZE) yields exactly its arguments and length, whatever follows |
| Wire.ParsePrefix | server-5204/link.cpp:366-457 | every proper prefix of a spelled packet is "not ready", never an error |
| Wire.ParseSound | server-5204/link.cpp:366-457 | whatever parse returns was spelled at the front of the input and covers exactly the bytes consumed |
| Wire.ParseExact | server-5204/link.cpp:366-457 | parse returns args and n if and only if the first n bytes spell args |
| Wire.HeadExact | server-5204/link.cpp:394-412 | a head line is taken for a length if and only if its leading digits denote it as an int |
| Protocol.ReturnsExactly | server-5204/link.cpp:366-457 | in bytes and numbers: parse returns these arguments and this length if and only if the input starts with line feeds and carriage returns, records of a length line of at most 18 bytes, a body and a line end, and a closing line, in at most 134217728 bytes |
| Protocol.RefusesExactly | server-5204/link.cpp:366-457 | parse refuses its input if and only if whole records are followed by a line that is neither empty nor a length line, or take more than 134217728 bytes |
| Protocol.PingRefused | server-5204/link.cpp:399-402 | "ping" and a line feed are refused, not waited on |
| Protocol.EncodedExactly | server-5204/util/bytes.cpp:114-137 | each body is sent behind its length in decimal without leading zeros, with single line feeds, and one more line feed at the end |
| Protocol.DecimalUnique | server-5204/util/bytes.cpp:121-123 | there is one way to write a length like that |
| Stalls.WaitsForeverExactly | server-5204/link.cpp:413-441 | whatever is sent behind s, parse says "not ready", if and only if s is blank lines, whole records within MAX_PACKET_SIZE, a head, its complete body and something that starts no line end |
| Stalls.StuckExample | server-5204/link.cpp:413-441 | "1", a line feed and "aX" are waited on for ever |
| Wire.ParseStable | server-5204/link.cpp:366-457 | a packet once ready is unaffected by bytes that arrive later |
| Wire.ParseNonempty | server-5204/link.cpp:393-398 | a returned packet is never empty, so empty means "not ready" |
| Wire.EncodeIsText | server-5204/link.cpp:471-477 | the bytes that send writes are in the grammar and spell the packet sent |
| Wire.RoundTrip | server-5204/link.cpp:366-477 | an encoded packet behind blank lines is returned exactly, for bodies of any bytes and any following bytes |
| Wire.RoundTripExactly | server-5204/link.cpp:436-477 | any packet with int-sized bodies comes back if it keeps MAX_PACKET_SIZE with the blank lines before it, and is refused otherwise |
| Wire.PrefixSafety | server-5204/link.cpp:366-477 | any proper prefix of that is waited for |
| Buffers.Buffer.Incr | server-5204/util/bytes.h:159-161 | the contents grow by the bytes behind them |
| Buffers.Buffer.Decr | server-5204/util/bytes.h:163-166 | the contents lose exactly their first bytes |
| Buffers.Buffer.Nice | server-5204/util/bytes.cpp:30-36 | contents unchanged, offset 0 once it was past the middle, ranges copied do not overlap, second half untouched |
| Buffers.ViewSurvivesExactly | server-5204/util/bytes.h:168-169 | for all arrays: a view in front of the data keeps its bytes across nice if and only if nothing moves or it starts behind the moved bytes |
| Buffers.Buffer.Grow | server-5204/util/bytes.cpp:38-56 | contents kept in a larger array of the stated size; -1 exactly when that size leaves the int range, changing nothing |
| Buffers.Buffer.Reserve | server-5204/util/bytes.cpp:114-121 | the append loops end, make room if and only if a size that growing reaches has it, and leave total within max(old, 8192, 8*(offset+size+needed)) and the int range |
| Buffers.LimitIs | server-5204/util/bytes.cpp:38-56 | every buffer can grow to at least 2^30 bytes, and stops where the next size leaves the int range |
| Buffers.GrowthSteps | server-5204/util/bytes.cpp:38-46 | growing gives 8192 at least and doubles the size at least from there; a buffer of 1024 bytes goes through 8192, 65536, 524288 and 1048576 bytes up to 1073741824 |
| Buffers.PutRecord | server-5204/util/bytes.cpp:125-134 | the three in-place writes put the record bytes at the slot and nothing elsewhere |
| Buffers.Buffer.Append | server-5204/util/bytes.cpp:139-161 | contents gain exactly the bytes if and only if the buffer can grow by them; otherwise -1 and the contents as they were |
| Buffers.Buffer.AppendRecord | server-5204/util/bytes.cpp:114-137 | contents gain exactly one record and its length is returned, if and only if the buffer can grow by its 16 + length + 1 bytes; otherwise -1 and the contents as they were |
| Links.Memchr | server-5204/link.cpp:386 | finds the first line feed of the range or none |
| Links.NextRecord | server-5204/link.cpp:385-441 | the loop body over the array decides as the decoder specification does, and hands out a view of the body |
| Links.Scan | server-5204/link.cpp:373-441 | both loops together give the decoder's verdict, and the views show its arguments |
| Links.Link.MakeRoom | server-5204/link.cpp:443-452 | contents unchanged and some space, unless a full buffer cannot grow any more; the new size and offset in numbers |
| Links.Link.Parse | server-5204/link.cpp:366-457 | removes exactly the decoded packet and returns views of its arguments; otherwise leaves the pending bytes alone; when not ready there is space or nothing pending |
| Links.Link.ReadOnce | server-5204/link.cpp:212-232 | one system call: received bytes move to the end of the input, none lost |
| Sockets.AnswersFacts | server-5204/link.cpp:212-237 | a loop of calls moves no more than it asks for or the kernel has, goes on only after EINTR or, non-blocking, after bytes, and otherwise fills the buffer |
| Sockets.AnswersFollow | server-5204/link.cpp:212-237 | each call is answered as the kernel says, with some bytes where it is to move any and has some |
| Links.Link.Read | server-5204/link.cpp:205-239 | the bytes the kernel answered are moved to the end of the input, none lost; -1 exactly on an error, 0 at the end of the stream, else the number of bytes moved; a buffer of 1024 bytes becomes one of 8192 first, any other keeps its size; with no script all that waits or fits is read |
| Responses.ReadPlain | server-5204/link.cpp:205-239 | what a read leaves and returns, from the sizes, the offset and the kernel's answers alone |
| Links.Link.Write | server-5204/link.cpp:278-312 | the bytes the kernel took leave the front of the output in order, none lost or repeated; -1 exactly on an error, else their number |
| Links.Link.Flush | server-5204/link.cpp:350-360 | the output, the kernel's bytes and the failure are those of answering the calls one by one until nothing is pending or an error comes |
| Sockets.WriteOfFlush | server-5204/link.cpp:278-360 | where one write ends and the next starts makes no difference to a flush, nor does O_NONBLOCK |
| Sockets.FlushedFacts | server-5204/link.cpp:350-360 | a flush fails if and only if a reply used was an error, which is the last; otherwise nothing stays pending; bytes keep their order |
| Links.Link.Send | server-5204/link.cpp:471-477 | appends exactly the records that find room in turn, and the closing line if it does |
| Links.WrittenWholeExactly | server-5204/link.cpp:471-477 | that is the encoding of the packet if and only if each record in turn and the closing line find room |
| Links.PartialExample | server-5204/link.cpp:471-477 | near the limit a long record is left out and the short one behind it sent |
| Links.Link.SendStrings | server-5204/link.cpp:459-469 | the same, but an empty packet writes nothing |
| Links.Link.Response | server-5204/link.cpp:519-533 | the rounds of parse and read, exactly; on success views of the first packet of the stream; on failure no byte is lost, and the input is malformed, or full for good, or the kernel gave up |
| Responses.NotReadyAsks | server-5204/link.cpp:205-212 | a round that is not ready asks for at least one byte and uses up a reply |
| Responses.AnswerIsPacket | server-5204/link.cpp:519-533 | a packet returned is the first of all bytes received or to come and only its bytes are gone; no error or end of stream was met, nor, when blocking, a would-block |
| Responses.WhyRefused | server-5204/link.cpp:519-533 | response gives up only on malformed input, on a full buffer that cannot grow, or because the kernel gave up or has nothing left; with a packet in the stream only after an error, the end of the stream or a would-block, and with a complete packet in the buffer only when non-blocking, after one of the first two |
| Responses.PacketArrives | server-5204/link.cpp:519-533 | when blocking, a packet in the stream is returned if the kernel brings bytes as often as bytes are missing, or never gives up |
| Responses.RefusedExactly | server-5204/link.cpp:212-230 | for every state: response gives up with a complete packet in its buffer if and only if the read that completed it, of however many, was on a non-blocking link and ended with an error or the end of the stream |
| Responses.RefusedExample | server-5204/link.cpp:227-229 | a whole packet followed by the end of the stream is refused on a non-blocking link |
| Delivery.SendKeeps | server-5204/link.cpp:471-477 | sending adds one packet to what is on the way |
| Delivery.ParseFront | server-5204/link.cpp:366-457 | on any front part of a stream that starts with a packet, parse waits or returns that packet |
| Delivery.ParseKeeps | server-5204/link.cpp:366-457 | a poll of any front part of the stream never fails, returns the next non-empty packet or waits, and waits on nothing longer than a packet may be |
| Delivery.GotIsPrefix | server-5204/link.cpp:366-477 | what was returned is a prefix of the non-empty packets sent |
| Delivery.Channel.DoSend | server-5204/link.cpp:471-477 | on two heap links the packet joins the stream exactly if it meets the size limit and each of its parts finds room in turn |
| Delivery.Channel.DoWrite | server-5204/link.cpp:278-312 | on two heap links a write hands over a front part of the output, all of it if the kernel takes everything |
| Delivery.Channel.DoRead | server-5204/link.cpp:205-239 | on two heap links a read moves as many bytes to the end of the input as the kernel answers, and changes nothing else |
| Delivery.Channel.DoParse | server-5204/link.cpp:366-457 | on two heap links a poll never fails and adds the next packet or nothing; with nothing on the way and nothing new, all packets have been returned |
| Delivery.Channel.Run | server-5204/link.cpp:205-477 | for every schedule: returned packets are a prefix of the non-empty packets sent, and all of them once the stream is drained; every packet of the schedule is sent if together they meet the size limit and the room to grow |
| Drainage.RoundMoves | server-5204/link.cpp:205-457 | whatever the kernels answer, a round of write, carry, poll and read brings the bytes nearer to the end or uses up replies, or they have all arrived |
| Drainage.Drain | server-5204/link.cpp:205-457 | from every state and for every two scripts, as many rounds as the bytes have steps to go and the scripts have replies return every packet sent |
| ConfigText.ReadLine | server-5204/util/config.cpp:36-82 | the loops over one line classify it as the line specification does |
| ConfigText.Trim | server-5204/util/strings.h:29-58 | the pointer loops remove the white space at both ends and nothing else |
| ConfigText.TrimmedExact | server-5204/util/strings.h:29-58 | trimming cuts off white space at both ends, all of it and nothing else |
| ConfigText.ParseLineExact | server-5204/util/config.cpp:36-82 | a line is read as an entry with this indent, key and value, or as this comment, if and only if it has that form |
| ConfigText.ReadPrinted | server-5204/util/config.cpp:242-257 | reading a printed comment or entry line gives back its depth, key and value |
| ConfigText.ParsedShape | server-5204/util/config.cpp:41-84 | keys read are trimmed, without separator, not starting with '#'; values are trimmed |
| ConfigText.SpacedKeyExactly | server-5204/util/config.cpp:66-82 | a key read holds white space if and only if some stands inside the text between the tabs and the separator |
| ConfigText.SpacedKeyExample | server-5204/util/config.cpp:66-82 | "a b=c" is read with the key "a b" |
| ConfigText.NothingDroppedExactly | server-5204/util/config.cpp:32-36 | nothing but line feeds is cut off a file if and only if every line ends in one and fits the buffer |
| ConfigText.DroppedExample | server-5204/util/config.cpp:32-36 | "a=bc" without line feed is read as "a=b" |
| ConfigLines.ReadExactly | server-5204/util/config.cpp:36-82 | in characters: a line is skipped, a comment, an entry with this indent, key and value, or invalid, if and only if it has that form |
| ConfigLines.CarriageReturnExample | server-5204/util/config.cpp:79-80 | "port: 8888" with a carriage return is read with the value "8888" |
| ConfigLines.LinesAre | server-5204/util/config.cpp:31-36 | lines of up to 4094 characters are read whole, longer ones in pieces of 4095 characters of which the last one is dropped |
| ConfigLines.LoadExample | server-5204/util/config.cpp:33-90 | a file with a comment, an entry and an entry below it, and the tree it gives |
| ConfigLines.PrintedIs | server-5204/util/config.cpp:242-257 | a node is printed as a line of tabs, key, colon, blank and value, or '#' and the value, with its children behind it |
| ConfigText.LinesOfJoin | server-5204/util/config.cpp:32-36 | fgets and the cut of the last character split printed text into its lines, as long as they fit CONFIG_MAX_LINE |
| ConfigTree.LoadedIsCanonical | server-5204/util/config.cpp:33-96 | every loaded tree is canonical: comments before other children, keys and values trimmed, no separator in a key |
| ConfigTree.AcceptedExactly | server-5204/util/config.cpp:33-90 | a file is accepted if and only if every line is readable and at most one level deeper than the entry before it |
| ConfigTree.FirstIndentExample | server-5204/util/config.cpp:49-59 | a first entry indented by one tab is accepted |
| ConfigTree.RunPrinted | server-5204/util/config.cpp:33-90 | loading the printed lines of a forest adds exactly that forest under the node at its depth |
| ConfigTree.LoadSave | server-5204/util/config.cpp:242-257 | load undoes save on every canonical tree whose lines fit |
| ConfigTree.RunJoined | server-5204/util/config.cpp:32-36 | printed lines that fit, or lose only the space behind a separator, are read from the file as they are |
| ConfigLimits.LoadWeight | server-5204/util/config.cpp:33-90 | a loaded tree holds no more characters and nodes than the lines read |
| ConfigLimits.PrintedWeight | server-5204/util/config.cpp:242-257 | a printed forest read again holds less if one of its lines does not fit |
| ConfigLimits.LoadSaveExact | server-5204/util/config.cpp:242-257 | a tree survives save and load if and only if it is canonical and every line fits CONFIG_MAX_LINE, one character more being harmless for an empty value |
| ConfigLimits.TooLongExample | server-5204/util/config.cpp:32-36 | an entry whose line is one character too long does not survive |
| ConfigLimits.LoadSaveLoad | server-5204/util/config.cpp:33-257 | load, save, load gives the tree of the first load if and only if its lines fit |
| ConfigArena.AddWellFormed | server-5204/util/config.cpp:165-172 | add_child keeps parent pointers, child lists and depths consistent |
| ConfigArena.SimUp | server-5204/util/config.cpp:49-55 | walking parent pointers with the root guard closes the same open nodes as the fold |
| ConfigArena.LoadLineRefines | server-5204/util/config.cpp:33-90 | one line on the nodes and one line of the fold accept alike and stay in agreement |
| ConfigArena.LoaderBuildsTree | server-5204/util/config.cpp:15-105 | for every text the pointer-walking loader returns NULL exactly when the fold does, and otherwise its nodes form the same tree |
| ConfigNesting.UpIsNearest | server-5204/util/config.cpp:49-55 | the walk up ends at the nearest earlier entry with a smaller indent, or the root |
| ConfigNesting.IndentsNest | server-5204/util/config.cpp:33-90 | in every accepted file each entry's parent is the nearest earlier entry with a smaller indent, or the root; a node's depth is its indent or one more; a comment hangs under the entry before it |
| ConfigPaths.KnownIs | server-5204/util/config.cpp:184-208 | the number of leading fields that resolve |
| ConfigPaths.BuildResolves | server-5204/util/config.cpp:125-156 | after build_key_path the path leads to the node returned |
| ConfigPaths.BuildAdds | server-5204/util/config.cpp:125-156 | the new nodes are exactly the missing fields, one below the other |
| ConfigPaths.ResolveUnique | server-5204/util/config.cpp:174-208 | a node is reached by one path only |
| ConfigPaths.SetThenGet | server-5204/util/config.cpp:158-208 | after set the path leads to the new value; every path that resolved leads to the same node, with its value unchanged unless it is the path set |
| ConfigPaths.FieldsSameExactly | server-5204/util/config.cpp:134-144 | two paths have the same fields if and only if they differ at most in which of dot and slash stands between them |
| ConfigUpdates.SetIsSetTree | server-5204/util/config.cpp:125-163 | the pointer updates of set change the tree as replacing or appending along the path does, and nothing outside of it |
| ConfigUpdates.LoadedAscending | server-5204/util/config.cpp:165-172 | in loaded configurations no node stands twice among the children of another |
| ConfigUpdates.SetSurvivesExactly | server-5204/util/config.cpp:125-257 | a tree that survives save and load still does after set if and only if the nodes on the way are entries, new keys and the value are as lines can hold them, no new comment comes behind an entry, and the lines fit |
| ConfigUpdates.SetExample | server-5204/util/config.cpp:125-163 | a new key with a separator does not survive, one without does |
| ConfigFile.Config.AddChild | server-5204/util/config.cpp:165-172 | on the objects: one fresh child behind the others, with this key, value, parent and depth; everything else as it was |
| ConfigFile.Config.FindChild | server-5204/util/config.cpp:174-182 | the last child with the key, from the objects alone, or null |
| ConfigFile.Config.Get | server-5204/util/config.cpp:184-208 | the object at the end of the path, or null where a field leads nowhere; on the objects alone: field by field, between dots and slashes, the last child with that key, of the first 4095 characters |
| ConfigFile.Config.BuildKeyPath | server-5204/util/config.cpp:125-156 | the objects hold the nodes with the missing ones added, and the path leads to the object returned |
| ConfigFile.Config.Set | server-5204/util/config.cpp:158-163 | the same with the value of the last node replaced; the path leads to the object returned, which has the value |
| ConfigFile.Config.Save | server-5204/util/config.cpp:242-257 | prints exactly the lines of the tree the objects form |
| ConfigFile.Config.Load | server-5204/util/config.cpp:15-105 | null exactly for refused files, else objects holding the loader's nodes |
| ConfigFile.LoadSaveReload | server-5204/util/config.cpp:15-257 | on the objects: load, save and load again form the same tree if and only if its lines fit |
| ConfigFile.SetThenGet | server-5204/util/config.cpp:158-208 | on the objects: after set, get leads to the object with the new value; any other path that led somewhere leads to the same object with its value unchanged |
| ConfigFile.SetSaveReload | server-5204/util/config.cpp:15-257 | on the objects: set, save and load form the tree that set made if and only if the path and the value keep to what lines can hold |
| Pool.MutexesKept | server-5204/util/thread.h:195-310 | each mutex is held by exactly the thread that believes to hold it |
| Pool.WakeupsKept | server-5204/util/thread.h:195-233 | while a worker is blocked there are no more queued jobs than pushes not yet signalled plus workers on their way to look |
| Pool.TokensKept | server-5204/util/thread.h:252-310 | queued results equal bytes in the pipe plus readers with a byte plus pushers about to write one |
| Pool.FlowKept | server-5204/util/thread.h:208-364 | each job taken is in one worker's hands or finished |
| Pool.RunOnceKept | server-5204/util/thread.h:348-361 | proc has run once on exactly the jobs past it |
| Pool.Conservation | server-5204/util/thread.h:195-364 | in every reachable state a pushed job is in exactly one place, and delivered jobs were processed once |
| Pool.NoLostWakeup | server-5204/util/thread.h:195-233 | with no signal or wakeup on the way, a blocked worker means an empty queue |
| Pool.ReaderFindsResult | server-5204/util/thread.h:277-310 | the "items empty" branch is unreachable and results leave in push order |
| Pool.OneToken | server-5204/util/thread.h:252-266 | at most one pusher is between enqueue and pipe write, namely the holder of the mutex |
| Pool.StopsOnlyWhenDone | server-5204/util/thread.h:195-364 | if no thread can move, every pushed job has been processed and no reader is kept from a result |
| PoolProgress.StepCosts | server-5204/util/thread.h:195-364 | every step of a thread inside push, pop or the worker loop uses up energy |
| PoolProgress.RunsAreShort | server-5204/util/thread.h:195-364 | no run of such steps is longer than the energy it starts with |
| PoolProgress.StuckIsDone | server-5204/util/thread.h:195-364 | when no thread can move, every job whose push was called has been processed once |
| PoolProgress.AllGetsDone | server-5204/util/thread.h:195-364 | from every reachable state, with at least one worker, the threads reach such a state within its energy |
| IpFilter.UpperBound | server-5204/util/ip_filter.h:26 | the first element behind the address, or none |
| IpFilter.CheckHit | server-5204/util/ip_filter.h:21-39 | true exactly when the first element behind the address matches it |
| IpFilter.HitIsMatch | server-5204/util/ip_filter.h:21-39 | a hit always means that some rule matches |
| IpFilter.MatchIsHit | server-5204/util/ip_filter.h:21-39 | without nested rules a matching rule always gives a hit |
| IpFilter.NestedMisses | server-5204/util/ip_filter.h:21-39 | any two nested rules have an address that matches but is not found |
| IpFilter.LookupIsScanExactly | server-5204/util/ip_filter.h:21-39 | the lookup agrees with the scan on all texts of digits and dots if and only if no rule's text starts another's |
| IpFilter.NestedExample | server-5204/util/ip_filter.h:21-39 | with the rules 1.2.3.4 and 1.2.3.45 the address 1.2.3.4 is not found |
| IpFilter.Filter.IsFullIp | server-5204/util/ip_filter.h:41-49 | the counting loop tells whether there are three dots |
| IpFilter.Filter.AddAllow | server-5204/util/ip_filter.h:63-72 | adds exactly the text with '=' behind it if it holds three dots and '@' otherwise, or sets the flag for "all" and "*" |
| IpFilter.Filter.AddDeny | server-5204/util/ip_filter.h:74-83 | the same for denied addresses |
| IpFilter.Filter.CheckPass | server-5204/util/ip_filter.h:85-104 | the precedence of allow, deny and the two flags; without nested rules the answer of a scan |
| IpFilter.Answer | server-5204/util/ip_filter.h:21-104 | a filter filled with any texts of which none starts another: an address passes if there are no texts, or an allowed text covers it, or "all" is allowed and no denied text covers it or is "all"; a text with three dots covers itself, any other what goes on behind it |
| IpFilter.PassIsScanExactly | server-5204/util/ip_filter.h:85-104 | without "all" the answers are those of a scan if and only if no allowed rules are nested; with it and no allowed rules, if and only if no denied ones are; with no denied rules always |
| IpFilter.OpenIsScanExactly | server-5204/util/ip_filter.h:85-104 | with "all" and rules on both sides they are if and only if no address misses an allowed rule and hits a denied one, or matches no allowed rule and misses a denied one |
| SortedSet.SortedSet.Add | server-5204/util/sorted_set.cpp:12-40 | the map view gets key := score, both indexes agree, and the result tells whether the key was new |
| SortedSet.SortedSet.Del | server-5204/util/sorted_set.cpp:42-56 | the view loses the key |
| SortedSet.SortedSet.Size | server-5204/util/sorted_set.cpp:8-10 | the number of keys of the view, though it counts the items |
| SortedSet.SortedSet.Front | server-5204/util/sorted_set.cpp:58-69 | a key with the smallest score, the smallest such key; 0 for the empty set |
| Strings.LessIs | server-5204/util/sorted_set.h:49-52 | the order of keys: a proper front part, or smaller where the two first differ |
| SortedSet.SortedSet.Back | server-5204/util/sorted_set.cpp:71-82 | a key with the largest score, the largest such key; 0 for the empty set |
| SortedSet.SortedSet.MaxScore | server-5204/util/sorted_set.cpp:84-89 | the largest score, 0 for the empty set |
| SortedSet.SortedSet.PopFront | server-5204/util/sorted_set.cpp:92-101 | removes the first item from both indexes |
| SortedSet.SortedSet.PopBack | server-5204/util/sorted_set.cpp:103-113 | removes the last item from both indexes |
| SortedSet.SortedSet.Drain | server-5204/util/sorted_set.cpp:58-101 | front and pop_front until empty give every pair once, strictly increasing |
| SortedSet.ViewDetermines | server-5204/util/sorted_set.h:49-56 | the scores alone determine the order of the items |
| LinkedList.LinkedList.PushBack | server-5204/util/list.h:70-80 | the new node ends the list in both directions |
| LinkedList.LinkedList.Remove | server-5204/util/list.h:48-62 | exactly that node leaves the list; its own pointers stay |
| LinkedList.LinkedList.PopFront | server-5204/util/list.h:64-68 | returns and removes the first node |
| LinkedList.RemoveWhileIterating | server-5204/util/list.h:18-62 | an iteration that removes any of the nodes just returned visits every node once and leaves exactly the others |
| Fdevents.GetFde | server-5204/fde.cpp:8-19 | the table is made long enough, keeping its entries and the subscriptions |
| Fdevents.SetSubscribesExactly | server-5204/fde_select.cpp:30-49 | the bits asked for are subscribed afterwards if and only if none or all of them were before |
| Fdevents.SubsAre | server-5204/fde_select.cpp:30-76 | set, clr and del bit by bit |
| Fdevents.SetDropsOut | server-5204/fde_select.cpp:36-38 | asking for In and Out where In is subscribed leaves Out out |
| Fdevents.Select.Set | server-5204/fde_select.cpp:30-49 | subscriptions, data and maxfd change as specified, not at all where the mask overlaps, and the two fd_sets repeat the bits; maxfd stays the largest descriptor watched if and only if the mask is not empty or fd is no larger; -1 for descriptors that do not fit |
| Fdevents.RaisedMaxfdExample | server-5204/fde_select.cpp:36-46 | after a set with an empty mask nothing is subscribed and maxfd is the descriptor |
| Fdevents.Select.SelectWatches | server-5204/fde_select.cpp:39-46 | select is asked for exactly the In and Out bits subscribed, and for no descriptor above maxfd |
| Fdevents.Select.Del | server-5204/fde_select.cpp:51-61 | the descriptor has no subscription left, and maxfd is again the largest |
| Fdevents.Select.Clr | server-5204/fde_select.cpp:63-76 | the bits are gone, the data stays, and maxfd is again the largest; the scan stays inside the table if and only if no bit was to be cleared or something stays subscribed |
| Fdevents.ClrExample | server-5204/fde_select.cpp:63-76 | clearing the only subscription takes the scan out of the table |
| Fdevents.NothingLeft | server-5204/fde_select.cpp:102-114 | the early exit by the bit count leaves no ready descriptor behind |
| Fdevents.Select.Wait | server-5204/fde_select.cpp:78-117 | exactly the ready descriptors, ascending, each once, with In exactly if readable and Out exactly if writable |
| Epoll.Epoll.Set | server-5204/fde_epoll.cpp:31-53 | subscriptions and data change as specified, not at all where the mask overlaps; the choice of ADD or MOD is accepted, the kernel is asked for the In and Out bits, and it goes on knowing just the subscribed descriptors if and only if the mask is not empty or fd is subscribed |
| Epoll.Epoll.KernelWatches | server-5204/fde_epoll.cpp:41-45 | the kernel watches a descriptor exactly if it is subscribed, for In and Out exactly if these bits are, and for nothing else |
| Epoll.EmptyMaskExample | server-5204/fde_epoll.cpp:31-53 | after a set with an empty mask the next set for the descriptor is refused by the kernel |
| Epoll.Epoll.Del | server-5204/fde_epoll.cpp:55-65 | no subscription left; -1 exactly if the descriptor was not registered |
| Epoll.Epoll.Clr | server-5204/fde_epoll.cpp:67-87 | the bits are gone; the choice of MOD or DEL is always accepted |
| Epoll.SameRun | server-5204/fde_epoll.cpp:31-87 | over any run of calls, empty masks included, both backends hold the same subscriptions; without empty masks maxfd and the kernel keep up with them |
| Server.NetworkServer.Accept | server-5204/net.cpp:46-51 | a new connection is watched for input |
| Server.NetworkServer.ReqRecv | server-5204/msg.cpp:8-36 | a response is queued last and output watched, or the connection is marked and unwatched |
| Server.NetworkServer.RspSend | server-5204/msg.cpp:38-63 | the first response is popped, or output is no longer watched |
| Server.NetworkServer.Dispatch | server-5204/net.cpp:44-61 | the connections change exactly as the event says and the subscriptions match them; a connection in error is left alone |
| Server.HandledIs | server-5204/net.cpp:44-61 | case by case what an event does, input first where it has both bits |
| Server.NetworkServer.KernelServes | server-5204/msg.cpp:33-34 | the kernel watches the listening socket and healthy connections for input, those with responses waiting for output, and nothing else |
| Server.NetworkServer.Round | server-5204/net.cpp:44-61 | after every round the connections have taken in the events in order; a healthy one is watched for input, and for output while responses wait, and its responses leave in order, and the kernel watches for all of this |
| Server.ConnectionsAdvance | server-5204/net.cpp:44-61 | over any run of events responses are only added at the end and popped in order; a connection in error stays as it is |
| Escape.StrEscape | server-5204/util/strings.h:89-124 | the loop escapes byte by byte |
| Escape.StrUnescape | server-5204/util/strings.h:140-191 | the index loop decodes round by round, short and lone escapes included |
| Escape.EscapedIs | server-5204/util/strings.h:89-124 | printing bytes but the backslash stand for themselves; carriage return, line feed, tab and backslash have short escapes; all others are two hexadecimal digits |
| Escape.UnescapedIs | server-5204/util/strings.h:147-191 | every escape of one letter, by its byte, and what is short or stands alone at the end |
| Escape.UnescapedHex | server-5204/util/strings.h:130-186 | two hexadecimal digits give their byte |
| Escape.UnescapedOther | server-5204/util/strings.h:130-186 | capital letters behind \x are not taken for hexadecimal digits |
| Escape.UnescapeEscape | server-5204/util/strings.h:89-191 | every byte string comes back, bytes from 128 on included |
| Escape.EscapedPrintable | server-5204/util/strings.h:89-124 | escaped text holds only bytes from ' ' to '~' |
| Escape.LineEncoder.Write | server-5204/util/line.h:10-14 | appends exactly one escaped line and a line feed |
| Escape.LineDecoder.Read | server-5204/util/line.h:44-56 | the next line unescaped, or -1 exactly when no line feed is left |
| Escape.WriteThenRead | server-5204/util/line.h:10-56 | any list of byte strings written line by line is read back as the same list, and then -1 |

## Left out

- Sockets, epoll and select system calls, files, daemon, logging: a socket is a script of replies and
  two byte streams, a file is its text, readiness is an arbitrary set.
- Allocation failure: memory is always there. `grow` fails only when the new size leaves the range of
  an int; in C that multiplication overflows, and the size it gives is not allocatable.
- The sum of header and body length in `Link::parse` is taken without overflow; `atoi` is the
  conversion of a 64-bit long to int.
- Delivery.Channel.Run: packets that break the size limit, or for which the output could not grow, are
  not sent; one direction of the connection only.
- Links.Link.Flush: a script is finite; behind it the kernel takes all writes and moves all it has, so that
  the loops end.
- Drainage.Drain: a failed call is not followed by closing the connection; the rounds go on.
- `msg_read`, `msg_write`, `request` and `connect`: copies or compositions of what is modelled.
- `Buffer::read_record`: it shrinks the size without moving the data, so it does not walk records.
- `Bytes::compare`, `Decoder`, number conversions and `Response`: easy members.
- Text with NUL characters in configuration files, and the destructor of `Config`.
- ConfigFile.Config.AddChild: the unused line number is not passed.
- Pool: failing mutex, condition and pipe calls; thread start and cancellation; a full pipe, which
  blocks a pusher that holds the mutex.
- SortedSet: the two standard containers are a map and an ordered list; iterators are the items they
  point to.
- Fdevents: the entries of the table are values and the pointers to them are positions; masks hold the
  five defined bits.
- Fdevents.Select.Clr: what the source reads in front of its table is not modelled; the call answers
  None there.
- `Fdevents::wait` of the epoll backend copies the kernel's list and renames its bits.
- FD_SETSIZE comes from the system headers and is taken to be 1024.
- Server: the contents of requests and responses, partly written responses, and closing descriptors.
