# ModSecurity 2.9.1: streaming parsers, search structures and body buffers

This project models the algorithmic parts of the ModSecurity 2.9.1 sources as
Dafny programs and states what they guarantee as theorems. Code that works in
place is a class or a method with loops and is proved equal to a specification
function on values; the theorems are about those functions, for all inputs and
all runs.

`dafny verify dfyconfig.toml` verifies everything.

| files | component |
|---|---|
| `ContentDisposition`, `Multipart`, `MultipartParser`, `MultipartStreaming`, `MultipartContent`, `MultipartFiles`, `MultipartRoundTrip`, `MultipartVariants` | the streaming multipart/form-data parser |
| `Tries`, `IpTree` | the Patricia tree of IP addresses |
| `Matching`, `SearchTrees`, `Acmp` | the multi-pattern matcher |
| `PartParser`, `PartParserSafety`, `EntryReader`, `EntryPipeline` | the audit log part parser, the entry reader on top of it, and both together |
| `AuditLog`, `AuditLogRoundTrip` | the native audit log writer, and reading its output back |
| `RequestBody` | the request body store |
| `Arguments`, `Sanitising` | the URL-encoded argument parser, and masking of logged bodies |
| `Horspool`, `StatusEngine`, `RuleMerge` | substring search, base32 and host name sizes, merging of rule contexts |
| `Wrappers`, `Bytes`, `Sequences`, `CStrings`, `Tables` | options, bytes, sequences, C strings, case-insensitive tables |

## Properties that do not hold everywhere

For these the exact condition, or a counterexample next to a sufficient
condition, is proved:

- The matcher takes a single fail step when it builds its links
  (`acmp.c:413-419`), so it can miss a pattern (`Matching.NotAlwaysExact`).
  `Matching.ExactIff` says for which dictionaries it is exact on all texts.
  Its condition looks at one step at a time, from each node on the next letter
  of each pattern, so it can be decided from the trie before any text is seen.
- The substring search builds its table from at most 64 bytes of the pattern
  but searches for all of it; `Horspool.ExactIff` says for which patterns it is
  right on all texts.
- Multipart data and audit log contents come back exactly when they contain
  nothing that reads like their own boundary (and, for a multipart part, no
  header is given twice) (`MultipartRoundTrip.RoundTrip`,
  `AuditLogRoundTrip.RoundTrip`).
- Which of the flags for data outside of the parts is raised depends on how
  the network splits the bytes behind the closing boundary;
  `MultipartStreaming.FlagsDifferExactly` says when. Nothing else depends on
  the splits.
- The file that reaches the upload file limit is itself cut after its first
  buffer, because the limit is looked at again for every buffer of the open
  file. `MultipartFiles.AllWhole` says for which bodies every file is stored
  whole, and `MultipartRoundTrip.CutFile` shows one that is cut.
- A netmask added for an address that is already in the tree is lost: a
  different one is ignored, and the same one is appended to the list of the new
  prefix, which is then dropped (`IpTree.WiderBlockLost`).
  `IpTree.FirstBlockDecides` says which block's netmask is on record.
- When case matters, a pattern is found where its bytes are if and only if they
  are all below 128 (`Acmp.CaseSensitiveExact`). Every caller in the repository
  creates the matcher without case sensitivity (`re_operators.c:1205`, `1249`,
  `apache2_config.c:2763`).
- Copying rules distributes over concatenation, and merging contexts is
  associative, exactly when no rule list ends inside a chain
  (`RuleMerge.DistributesExactly`, `RuleMerge.AssociativeExactly`).

## Where code and comments differ

- `multipart_boundary_characters_valid` accepts a space in a boundary although
  its comment excludes it; the model follows the code.
- The comment on `modsecurity_request_body_retrieve` allows any non-negative
  limit. A limit of 0 makes no progress, and mixing limits with unlimited calls
  reads past a chunk; neither is modelled.

## Reading the models

- A part of the multipart parser is a value inside the parser object, and
  stored files are strings. Lengths and offsets are unbounded integers.
- The Patricia tree keeps a ghost value of type `Trie<TreeNode>`: the trie its
  nodes are meant to be. `Valid` says that the heap realises it. A snapshot of
  the nodes as a map from nodes to their fields lets lemmas compare two states.
- The matcher keeps a ghost map from words to nodes. Letters are integers;
  folding is that of the C locale.
- Branches that cannot be reached in a valid structure are left out of method
  bodies: missing children on the way down the IP tree, an inner node for
  equal addresses, the overflow of the merged body buffer beyond its check,
  and a sensitive argument that does not lie in the only chunk.

## Model

| member | source | states |
|---|---|---|
| CStrings.LowerCaseExact | PowerShellCookbook/ModSecurity-master/apache2/msc_multipart.c:287-411 | Two header names have the same key if and only if they differ in the case of ASCII letters only. |
| Tables.LookupSet | PowerShellCookbook/ModSecurity-master/apache2/msc_multipart.c:287-411 | What is set under a name is found under the same name in any case, and other names are not affected. |
| ContentDisposition.ParseContentDisposition | PowerShellCookbook/ModSecurity-master/apache2/msc_multipart.c:80-245 | The loop over the header value gives the result code and fields of the recursive reading: names and values before the first bad character, each refusal with the code of its branch, repeated names refused. |
| ContentDisposition.ReadEscaped | PowerShellCookbook/ModSecurity-master/apache2/msc_multipart.c:116-180 | Reading the backslash-escaped form of any text stops at the closing quote with exactly that text. |
| ContentDisposition.RoundTrip | PowerShellCookbook/ModSecurity-master/apache2/msc_multipart.c:80-245 | For every NUL-free name and optional file name, the printed header (RFC 7578 section 4.2) parses with result 1 to exactly those strings; the quoting flag is raised when one of them holds a single quote. |
| ContentDisposition.ParamsExact | PowerShellCookbook/ModSecurity-master/apache2/msc_multipart.c:98-242 | Any list of parameters, printed and parsed: accepted if and only if all are name or filename and none is given twice, with exactly the values given; otherwise the code is that of the first offender, -11 for an unknown parameter, -14 for a repeated name, -15 for a repeated file name. |
| ContentDisposition.ReadSingle | PowerShellCookbook/ModSecurity-master/apache2/msc_multipart.c:125-174 | A value in single quotes is read like one in double quotes, and flagged. |
| ContentDisposition.ReadRaw | PowerShellCookbook/ModSecurity-master/apache2/msc_multipart.c:141-172 | Text in which backslashes escape nothing, such as a path of Windows, is read as it stands. |
| ContentDisposition.ReadBare | PowerShellCookbook/ModSecurity-master/apache2/msc_multipart.c:175-179 | A value without quotes is read up to the first byte that is not visible ASCII or is a separator. |
| MultipartParser.Parser.ProcessChunk | PowerShellCookbook/ModSecurity-master/apache2/msc_multipart.c:1019-1244 | One network read leaves the object in the state of the byte-wise machine run over the bytes (4096-byte buffer, held-back line break, flags); the result is -1 exactly for the branches that fail, and nothing is taken after the end or a failure. |
| MultipartParser.Parser.TakeBytes | PowerShellCookbook/ModSecurity-master/apache2/msc_multipart.c:1049-1241 | The loop over the bytes, including the round that processes the buffer without taking a byte because a carriage return would fill it, ends and does what the byte-wise machine does. |
| MultipartParser.RunInv | PowerShellCookbook/ModSecurity-master/apache2/msc_multipart.c:1042-1240 | Between two bytes of every run, on every input: the buffer has room for at least one byte and holds no line feed, and the length counted for a form field is that of its pieces. |
| MultipartParser.BreaksStayTogether | PowerShellCookbook/ModSecurity-master/apache2/msc_multipart.c:1049-1064 | After any input that has not stopped the parser, the buffer holds the last bytes read and the byte in front of it is no carriage return that a line feed could still follow: a CRLF is never split across two buffers. |
| MultipartParser.OnlyLinesComplete | PowerShellCookbook/ModSecurity-master/apache2/msc_multipart.c:1100-1124 | A buffer without a line feed never closes the body, so a boundary is never taken from half a line. |
| MultipartParser.Parser.FlushBuffer | PowerShellCookbook/ModSecurity-master/apache2/msc_multipart.c:1069-1230 | Processing a full or finished buffer: boundary, malformed boundary, header line or data, and what is left of the buffer when that fails. |
| MultipartParser.Parser.JudgeBuffer | PowerShellCookbook/ModSecurity-master/apache2/msc_multipart.c:1074-1163 | The comparisons with the boundary give separator, last separator, malformed, suspicious or no boundary as the verdict function says. |
| MultipartParser.Parser.LookForBoundary | PowerShellCookbook/ModSecurity-master/apache2/msc_multipart.c:1168-1181 | The scan over the buffer reports a hidden boundary exactly when two dashes and the boundary stand at some index. |
| MultipartParser.Parser.ProcessPartHeader | PowerShellCookbook/ModSecurity-master/apache2/msc_multipart.c:250-421 | A header line: NUL refused, line-break flags, empty line, folding, new header. |
| MultipartParser.Parser.EmptyHeaderLine | PowerShellCookbook/ModSecurity-master/apache2/msc_multipart.c:284-321 | The end of the headers: Content-Disposition required and parsed, name required, file or field decided. |
| MultipartParser.Parser.FoldedHeaderLine | PowerShellCookbook/ModSecurity-master/apache2/msc_multipart.c:325-374 | A continuation line is joined to the last header; flags for indentation, error beyond 4096 bytes. |
| MultipartParser.Parser.NewHeaderLine | PowerShellCookbook/ModSecurity-master/apache2/msc_multipart.c:375-416 | A header line is split at its first colon; missing, empty and repeated names are errors. |
| MultipartParser.Parser.ProcessPartData | PowerShellCookbook/ModSecurity-master/apache2/msc_multipart.c:426-592 | The held-back bytes and the buffer without its own line break are appended to the value or the file; the file limit is looked at again for every buffer. |
| MultipartParser.Parser.CombineValueParts | PowerShellCookbook/ModSecurity-master/apache2/msc_multipart.c:598-616 | The pieces of a field are put together to their concatenation, never beyond the length counted. |
| MultipartParser.Parser.ProcessBoundary | PowerShellCookbook/ModSecurity-master/apache2/msc_multipart.c:622-690 | A boundary finishes the part, which joins the list only if it has a name, and opens the next one unless it is the last. |
| MultipartParser.Parser.Complete | PowerShellCookbook/ModSecurity-master/apache2/msc_multipart.c:979-1013 | The end of the body: an unprocessed final boundary in the buffer is taken; otherwise a missing one is an error. |
| MultipartStreaming.ChunkSplit | PowerShellCookbook/ModSecurity-master/apache2/msc_multipart.c:1019-1244 | Reading a and then b leaves the same parser state, parts and verdict as reading a+b, except for which of the two data-outside flags is raised; a failure in a is final. |
| MultipartStreaming.ChunkingIrrelevant | PowerShellCookbook/ModSecurity-master/apache2/msc_multipart.c:1019-1244 | The same for any division of the body into reads. |
| MultipartStreaming.AfterClosing | PowerShellCookbook/ModSecurity-master/apache2/msc_multipart.c:1032-1240 | Bytes behind the closing boundary raise one flag when they come in the same read and the other when they come in a later one, and change nothing else: the exact extent of the dependence on reads. |
| MultipartStreaming.FlagsDifferExactly | PowerShellCookbook/ModSecurity-master/apache2/msc_multipart.c:1019-1244 | Two reads and their join differ, in the two flags only, if and only if the first read closes the body and not both flags are up already. |
| MultipartContent.JudgeExact | PowerShellCookbook/ModSecurity-master/apache2/msc_multipart.c:1074-1163 | A buffer that starts a line is not taken for data exactly when it is two dashes and the boundary, with whitespace or (for a quoted boundary) a quote in between. |
| MultipartContent.DataKeeps | PowerShellCookbook/ModSecurity-master/apache2/msc_multipart.c:426-592 | After any number of data bytes without a boundary-like buffer the pieces, the held-back break and the buffer together are exactly those bytes. |
| MultipartContent.ByteCuts | PowerShellCookbook/ModSecurity-master/apache2/msc_multipart.c:1042-1240 | A boundary-like buffer inside the data ends the part or the parsing there. |
| MultipartRoundTrip.RoundTrip | PowerShellCookbook/ModSecurity-master/apache2/msc_multipart.c:1019-1244 | For every list of printable fields, with Content-Disposition in any case and any further headers, and every chunking: they come back in order with names, file names, kinds, header values, lengths and every byte of the values if and only if no header is given twice in whatever case and no buffer-sized stretch at the start of a data line is boundary-like; then every file holds exactly what the limit on files leaves room for, all files are stored whole if and only if FilesFit holds of the fields, and the flag for too many files has its exact condition. |
| MultipartRoundTrip.RoundTripUnterminated | PowerShellCookbook/ModSecurity-master/apache2/msc_multipart.c:979-1001 | The same, with the same if-and-only-if and the same files, when the line break behind the closing boundary is missing and the final call takes the boundary from the buffer. |
| MultipartRoundTrip.RepeatedFails | PowerShellCookbook/ModSecurity-master/apache2/msc_multipart.c:403-410 | A part that gives a header twice, in whatever case, fails the body, whatever follows. |
| MultipartVariants.SurroundedRoundTrip | PowerShellCookbook/ModSecurity-master/apache2/msc_multipart.c:1019-1244 | Text lines in front of a printed body and any bytes behind it, in any chunks: the same fields come back under the same condition, and data outside of the parts is reported if and only if there is any. |
| MultipartVariants.InsideParts | PowerShellCookbook/ModSecurity-master/apache2/msc_multipart.c:1186-1215 | Once there is a part no byte counts as data in front of the first boundary. |
| MultipartVariants.CutClosing | PowerShellCookbook/ModSecurity-master/apache2/msc_multipart.c:979-1013 | A body cut off anywhere inside its closing boundary, or before it, makes the final call return -1 and change nothing. |
| MultipartVariants.PartHeaderExact | PowerShellCookbook/ModSecurity-master/apache2/msc_multipart.c:284-321 | A part with one Content-Disposition, in any case and with any parameters, is accepted if and only if the name is given and no parameter is unknown or given twice; it is a file if and only if a file name is given. |
| MultipartVariants.NoDisposition | PowerShellCookbook/ModSecurity-master/apache2/msc_multipart.c:287-291 | The empty line without a Content-Disposition before it fails the body. |
| MultipartVariants.FilenameHidden | PowerShellCookbook/ModSecurity-master/apache2/msc_multipart.c:295-318 | A file name that the header does not hold as "filename=" fails the body. |
| MultipartVariants.NoHeader | PowerShellCookbook/ModSecurity-master/apache2/msc_multipart.c:375-402 | A header line without a colon, or with nothing in front of it, fails the body. |
| MultipartVariants.LongHeader | PowerShellCookbook/ModSecurity-master/apache2/msc_multipart.c:1184-1215 | A header line that does not fit the buffer fails the body. |
| MultipartVariants.FoldedStored | PowerShellCookbook/ModSecurity-master/apache2/msc_multipart.c:325-374 | A line that starts with white space is joined with one space to the value before it; without a header before it, or beyond 4096 bytes, the body fails; white space other than spaces and tabs is flagged. |
| MultipartVariants.UnnamedDropped | PowerShellCookbook/ModSecurity-master/apache2/msc_multipart.c:622-690 | A boundary in front of the end of the headers drops the part and raises its flag. |
| MultipartVariants.BoundaryLineFlags | PowerShellCookbook/ModSecurity-master/apache2/msc_multipart.c:1092-1124 | Boundary lines with a bare line feed count like those with CRLF; each raises the flag of its own line break alone, and only two more dashes end the body. |
| MultipartVariants.HeaderLineFlags | PowerShellCookbook/ModSecurity-master/apache2/msc_multipart.c:265-284 | Each header line raises the flag of its own line break alone. |
| MultipartVariants.UnmatchedExact | PowerShellCookbook/ModSecurity-master/apache2/msc_multipart.c:1156-1182 | A line that is not taken for a boundary raises the flag for unmatched boundaries if and only if it starts with two dashes and is longer than three bytes, or holds two dashes and the boundary anywhere. |
| MultipartRoundTrip.NoDashesClean | PowerShellCookbook/ModSecurity-master/apache2/msc_multipart.c:1074-1163 | Data without a line that starts with two dashes meets the condition of the round trip. |
| MultipartFiles.AllWhole | PowerShellCookbook/ModSecurity-master/apache2/msc_multipart.c:466-534 | With extraction on, every file is stored whole if and only if there are no files, fewer than the limit, or as many as the limit and the last one is taken in one buffer: no line feed, and fewer than 4096 bytes or exactly 4096 that do not end in a carriage return. |
| MultipartFiles.ExceededExact | PowerShellCookbook/ModSecurity-master/apache2/msc_multipart.c:466-479 | The flag for too many files is raised if and only if a buffer of some file comes when the limit is used up: more files than the limit, or as many and the last one does not fit one buffer together with its line break. |
| MultipartRoundTrip.CutFile | PowerShellCookbook/ModSecurity-master/apache2/msc_multipart.c:466-534 | A body with one file where one is permitted: of the two lines only the first arrives on disk, while the length counts all of it. |
| IpTree.ConvertIPNetmask | PowerShellCookbook/ModSecurity-master/apache2/msc_tree.c:45-66 | Masks the address in place to Masked and leaves the rest of the buffer alone. |
| IpTree.MaskedBits | PowerShellCookbook/ModSecurity-master/apache2/msc_tree.c:45-66 | Masking keeps exactly the first netmask bits. |
| Tries.BitExact | PowerShellCookbook/ModSecurity-master/apache2/msc_tree.c:335-337 | Bits are counted from the most significant bit of the first byte. |
| IpTree.HighestBit | PowerShellCookbook/ModSecurity-master/apache2/msc_tree.c:366-374 | The loop over halving thresholds finds the highest set bit of a nonzero byte. |
| IpTree.FirstDifference | PowerShellCookbook/ModSecurity-master/apache2/msc_tree.c:350-379 | The comparison loop returns the true first bit in which two addresses differ, or their length exactly when they are equal. |
| IpTree.CPTTree.AddElement | PowerShellCookbook/ModSecurity-master/apache2/msc_tree.c:295-522 | For any netmask, after the call the linked nodes are a well-formed trie whose entries are the old ones, with the masked address added with its netmask unless it was known; the node returned holds the address, or is the top of the part a block covers when that block is added again; bit counts that are not whole bytes change nothing but the buffer. |
| IpTree.CPTTree.RetrieveNode | PowerShellCookbook/ModSecurity-master/apache2/msc_tree.c:575-611 | The descent by the bits of the address ends, because the bits tested grow, at the leaf the trie assigns to it. |
| IpTree.CPTTree.Climb | PowerShellCookbook/ModSecurity-master/apache2/msc_tree.c:381-386 | Climbing by parent links stops at exactly the node whose place the new inner node has to take. |
| IpTree.CPTTree.ClimbNetmask | PowerShellCookbook/ModSecurity-master/apache2/msc_tree.c:409-413 | Climbing from a known leaf stops at the first node on its way, seen from the top, that tests no bit of the netmask. |
| IpTree.CoveringExact | PowerShellCookbook/ModSecurity-master/apache2/msc_tree.c:409-413 | Below the node it stops at are exactly the addresses of the tree that share the bits of the netmask. |
| IpTree.CPTTree.Attach | PowerShellCookbook/ModSecurity-master/apache2/msc_tree.c:445-516 | The new leaf and inner node are linked in so that the tree is again well formed and has one entry more. |
| IpTree.CPTTree.SetParentNode | PowerShellCookbook/ModSecurity-master/apache2/msc_tree.c:239-249 | Exactly one reference, of the parent or the tree, is redirected. |
| IpTree.CPTTree.CreateHead | PowerShellCookbook/ModSecurity-master/apache2/msc_tree.c:207-237 | The first entry becomes the whole tree. |
| IpTree.SpliceRealizes | PowerShellCookbook/ModSecurity-master/apache2/msc_tree.c:445-516 | The pointer assignments turn the linked form of any trie into the linked form of the spliced trie: parent links stay inverse to child links. |
| IpTree.ChildHasParent | PowerShellCookbook/ModSecurity-master/apache2/msc_tree.c:239-249 | In a linked trie a child pointer and the parent pointer of its target are inverse, and the two children differ. |
| Tries.SpliceWellFormed | PowerShellCookbook/ModSecurity-master/apache2/msc_tree.c:381-516 | Inserting a key where it diverges keeps bits growing downwards, keys below a node agreeing on all earlier bits, and its own bit telling left from right. |
| Tries.SpliceEntries | PowerShellCookbook/ModSecurity-master/apache2/msc_tree.c:381-516 | Insertion adds exactly one entry. |
| Tries.BottomExact | PowerShellCookbook/ModSecurity-master/apache2/msc_tree.c:323-348 | The leaf an address leads to holds it exactly when the address is in the trie at all. |
| IpTree.CPTTree.FindElement | PowerShellCookbook/ModSecurity-master/apache2/msc_tree.c:701-779 | In a tree of full-length entries the lookup returns a node if and only if the address was inserted, and that node holds it. |
| IpTree.AddAll | PowerShellCookbook/ModSecurity-master/apache2/msc_tree.c:295-522 | Any list of insertions, with any netmasks, keeps the tree valid and gives the entries of the fold. |
| IpTree.InsertedAllKeys | PowerShellCookbook/ModSecurity-master/apache2/msc_tree.c:295-522 | After any list of insertions the keys are exactly the masked addresses added. |
| IpTree.FirstNetmaskStays | PowerShellCookbook/ModSecurity-master/apache2/msc_tree.c:388-443 | A second netmask for a known address changes nothing that is kept: a different one is ignored, the same one goes to the list of a prefix that is dropped. |
| IpTree.FirstBlockDecides | PowerShellCookbook/ModSecurity-master/apache2/msc_tree.c:388-443 | After any list of insertions into a tree that lacks the address, the netmask on record is that of the first block that names it; the netmask of a later block is on record if and only if the first had the same. |
| IpTree.WiderBlockLost | PowerShellCookbook/ModSecurity-master/apache2/msc_tree.c:388-443 | 10.0.0.0 with 16 and then with 8 bits: only the first is on record. |
| IpTree.HostEntries | PowerShellCookbook/ModSecurity-master/apache2/msc_tree.c:295-522 | After inserting only full-length addresses the entries are exactly those addresses, which is what FindElement asks for. |
| Acmp.Matcher.AddPattern | PowerShellCookbook/ModSecurity-master/apache2/acmp.c:501-551 | Adds the folded pattern to the dictionary and its letters to the linked trie, which then spells exactly the prefixes of the patterns; refused once searching has begun; an empty pattern adds nothing. |
| Acmp.ChildForCode | PowerShellCookbook/ModSecurity-master/apache2/acmp.c:221-229 | The linear search finds the child for a letter or none. |
| Acmp.Matcher.ConnectFailBranches | PowerShellCookbook/ModSecurity-master/apache2/acmp.c:390-434 | The level-by-level loop with its two stacks reaches every node and points its fail link one step from the fail link of its parent, or to the root. |
| Acmp.Matcher.ConnectOtherMatches | PowerShellCookbook/ModSecurity-master/apache2/acmp.c:289-306 | Every node below the root gets an other-match link exactly when a pattern lies on its way of fail links. |
| Acmp.Matcher.BuildBinaryTree | PowerShellCookbook/ModSecurity-master/apache2/acmp.c:346-385 | Every node gets a search tree that finds its children and nothing else. |
| Acmp.Matcher.Prepare | PowerShellCookbook/ModSecurity-master/apache2/acmp.c:476-491 | After preparing, all fail links, other-match links and search trees are in place. |
| Acmp.Matcher.Goto | PowerShellCookbook/ModSecurity-master/apache2/acmp.c:570-592 | One letter: follows fail links, each to a shorter word, to the next node; a hit is reported exactly when that node is a pattern or has an other match. |
| Acmp.Scanner.ProcessQuick | PowerShellCookbook/ModSecurity-master/apache2/acmp.c:556-597 | One call gives 1 or 0 and leaves the scan at the node of the word-level scan; the stored node is not moved by a call that finds a match. |
| Acmp.ProcessSplit | PowerShellCookbook/ModSecurity-master/apache2/acmp.c:556-597 | Splitting the data over two calls gives the outcome of one call, up to the first match. |
| Acmp.FoldedSuffix | PowerShellCookbook/ModSecurity-master/apache2/acmp.c:517-522 | Unless case matters a pattern ends the data exactly when the bytes agree up to ASCII case. |
| Acmp.HighByteNeverFound | PowerShellCookbook/ModSecurity-master/apache2/acmp.c:199-215 | With case sensitivity a pattern with a byte from 128 on is never found: its letter is negative, those of the data are not. |
| Acmp.CaseSensitiveExact | PowerShellCookbook/ModSecurity-master/apache2/acmp.c:199-215 | With case sensitivity a pattern is found exactly where its bytes are, in all data, if and only if all its bytes are below 128. |
| Acmp.Search | PowerShellCookbook/ModSecurity-master/apache2/acmp.c:501-597 | A dictionary without case and a stream read piece by piece: a call gives 1 only if some pattern occurs, up to case, in the bytes read, and with patterns of at most three bytes the first call after which one does gives 1. |
| Matching.ScanSound | PowerShellCookbook/ModSecurity-master/apache2/acmp.c:556-597 | Without any condition: a reported match is a pattern that ends there, and the current node spells a suffix of what was read. |
| Matching.ScanSplit | PowerShellCookbook/ModSecurity-master/apache2/acmp.c:556-597 | The scan of a concatenation is the scan of its first part continued. |
| Matching.ExactIff | PowerShellCookbook/ModSecurity-master/apache2/acmp.c:390-597 | For every dictionary: the matcher stops at the earliest end of a pattern in every text, or reports none in texts without one, if and only if no step from a match-free node loses letters of a pattern that contains no other (a condition on the finitely many nodes and letters). |
| Matching.LongestExact | PowerShellCookbook/ModSecurity-master/apache2/acmp.c:390-439 | Fail links that are longest proper suffixes suffice for exactness. |
| Matching.ShortPatternsExact | PowerShellCookbook/ModSecurity-master/apache2/acmp.c:413-419 | With patterns of at most three letters the one-step fail links make the matcher exact. |
| Matching.NotAlwaysExact | PowerShellCookbook/ModSecurity-master/apache2/acmp.c:413-419 | A dictionary of three patterns for which the one-step fail links miss an occurrence. |
| SearchTrees.Find | PowerShellCookbook/ModSecurity-master/apache2/acmp.c:266-277 | The descent in a search tree computes the lookup. |
| SearchTrees.SortNodes | PowerShellCookbook/ModSecurity-master/apache2/acmp.c:366-375 | The exchange sort permutes the children into increasing order. |
| SearchTrees.AddBtreeLeaves | PowerShellCookbook/ModSecurity-master/apache2/acmp.c:311-341 | The recursive construction builds the balanced tree over the sorted children. |
| SearchTrees.TreeFindsAsLinear | PowerShellCookbook/ModSecurity-master/apache2/acmp.c:221-385 | For distinct letters the tree finds exactly what the linear search finds, for every letter, and its depth is at most 1 + log2 of the number of children. |
| PartParser.ParseBoundaryExact | PowerShellCookbook/ModSecurity-master/alp2/alp2_pp.c:40-104 | A line is recognised as a boundary line exactly when it is two dashes, eight or more hexadecimal digits, a dash, a capital letter, two dashes and a line feed. |
| PartParser.ValidBoundaryExact | PowerShellCookbook/ModSecurity-master/alp2/alp2_pp.c:56-66 | A boundary is eight or more hexadecimal digits of either case. |
| PartParser.Parser.IsBoundaryLine | PowerShellCookbook/ModSecurity-master/alp2/alp2_pp.c:40-104 | The checks on the line buffer recognise exactly those lines, and inside an entry only those with its own boundary. |
| PartParser.Parser.Process | PowerShellCookbook/ModSecurity-master/alp2/alp2_pp.c:154-353 | A call leaves the object, and the events emitted, as the byte-wise machine does, with the return code for stop, failure or more data. |
| PartParser.RunInv | PowerShellCookbook/ModSecurity-master/alp2/alp2_pp.c:154-330 | In every run an open entry is one with an open part, the line buffer holds at most 16384 bytes without a line feed, and the offsets add up. |
| PartParser.ChunkingIrrelevant | PowerShellCookbook/ModSecurity-master/alp2/alp2_pp.c:335-353 | State and events do not depend on how the stream is split into calls. |
| PartParser.RunDone | PowerShellCookbook/ModSecurity-master/alp2/alp2_pp.c:322-330 | After the callback has asked to stop, no event is emitted any more. |
| PartParserSafety.RunAccounts | PowerShellCookbook/ModSecurity-master/alp2/alp2_pp.c:109-322 | For every stream and callback the events are a prefix of (ENTRY_START (PART_START PART_DATA* PART_END)+ ENTRY_END)* and tile the bytes: each part starts behind its boundary line, its data events are the consecutive slices, offset plus size is the next boundary line, and the entry size reaches to the end of its Z line. |
| AuditLog.Log.WriteEntry | PowerShellCookbook/ModSecurity-master/apache2/msc_logging.c:1617-1631 | Writing the header without and every later boundary line with a leading line break produces the printed form of the entry. |
| AuditLogRoundTrip.RoundTrip | PowerShellCookbook/ModSecurity-master/apache2/msc_logging.c:1617-2193 | For all entries the logger can frame and every chunking: boundaries, part letters and contents (each with one line break behind it) are read back if and only if no line of any content is a boundary line of its entry, also for lines longer than the line buffer. |
| EntryReader.Reader.Callback | PowerShellCookbook/ModSecurity-master/alp2/alp2.c:1263-1299 | Each event changes the flags, the entry and the list of delivered entries as the dispatched handler does, and parsing goes on unless the user callback said stop. |
| EntryReader.EntryRuns | PowerShellCookbook/ModSecurity-master/alp2/alp2.c:1263-1297 | Reacting to the events of an entry one by one amounts to reading its parts in order. |
| EntryReader.EntryVerdict | PowerShellCookbook/ModSecurity-master/alp2/alp2.c:1106-1259 | Every entry is handed on exactly once, and without error if and only if its first part is A, it has a part H, no handler refuses a line or part, and no line follows the last one a part wanted. |
| EntryReader.AcceptableExact | PowerShellCookbook/ModSecurity-master/alp2/alp2.c:1106-1259 | The parts A, B, F and H of an acceptable entry are read by their handlers in order, and all other parts are passed over. |
| EntryReader.RefusalsExact | PowerShellCookbook/ModSecurity-master/alp2/alp2.c:1153-1259 | A handler that refuses the first line, or the end, of parts with some letter spoils exactly the entries that have such a part if the letter is A, B, F or H, and none otherwise. |
| EntryReader.OthersPassedOver | PowerShellCookbook/ModSecurity-master/alp2/alp2.c:1153-1259 | Handlers that agree on A, B, F and H cannot be told apart: for other letters none is consulted. |
| EntryReader.EntriesIndependent | PowerShellCookbook/ModSecurity-master/alp2/alp2.c:1106-1150 | The verdict on an entry does not depend on the entries around it. |
| EntryPipeline.EventsGrouped | PowerShellCookbook/ModSecurity-master/alp2/alp2_pp.c:109-322 | Every sequence of events that accounts for a stream is that of complete entries, each with at least one part, followed by the beginning of one more entry or by nothing. |
| EntryPipeline.StreamVerdicts | PowerShellCookbook/ModSecurity-master/alp2/alp2.c:1106-1299 | For every stream of bytes the reader on top of the part parser hands on exactly the complete entries of the stream, each without error if and only if it is acceptable, and the part parser stops if and only if the reader asked for it. |
| RequestBody.Body.Store | PowerShellCookbook/ModSecurity-master/apache2/msc_reqbody.c:161-304 | Every buffer is appended to the content, in memory or on disk; the switch to disk happens exactly when the limit would be exceeded and spilling is on. |
| RequestBody.StoreAll | PowerShellCookbook/ModSecurity-master/apache2/msc_reqbody.c:161-304 | After any buffers the content is their concatenation; it is on disk if and only if spilling is on, buffering is not forced and the content exceeds the limit in memory, and otherwise in chunks of exactly 8192 bytes, the last one aside. |
| RequestBody.Body.StoreMemory | PowerShellCookbook/ModSecurity-master/apache2/msc_reqbody.c:181-304 | The re-chunking loop appends the buffer; all chunks but the one being filled are exactly 8192 bytes. |
| RequestBody.Body.SpillToFile | PowerShellCookbook/ModSecurity-master/apache2/msc_reqbody.c:206-225 | Spilling writes the chunks in order. |
| RequestBody.LayoutCount | PowerShellCookbook/ModSecurity-master/apache2/msc_reqbody.c:250-298 | The number of chunks is the length divided by 8192, rounded up, and one is open exactly when the length is not a multiple. |
| RequestBody.Body.EndRaw | PowerShellCookbook/ModSecurity-master/apache2/msc_reqbody.c:483-551 | Merging the chunks into one keeps the content and cannot fail for lack of room; the reported length is cut to the limit. |
| RequestBody.Body.Retrieve | PowerShellCookbook/ModSecurity-master/apache2/msc_reqbody.c:748-846 | Each call returns the next piece of what remains, at most nbytes long, and 0 only when nothing remains. |
| RequestBody.RetrieveAll | PowerShellCookbook/ModSecurity-master/apache2/msc_reqbody.c:682-846 | Retrieving with any positive limits, or without limits, ends and returns exactly the content. |
| RequestBody.StoreAndRetrieve | PowerShellCookbook/ModSecurity-master/apache2/msc_reqbody.c:161-846 | Whatever the buffers, settings, spilling, merging and limits, what is retrieved is the concatenation of what was stored. |
| Horspool.Init | PowerShellCookbook/ModSecurity-master/ext/mod_op_strstr.c:150-169 | The two loops fill the table with the shift of every byte, from at most 64 bytes of the pattern. |
| Horspool.BoyerMooreHorspool | PowerShellCookbook/ModSecurity-master/ext/mod_op_strstr.c:171-187 | The loop computes the search by shifts, and ends because every shift is positive. |
| Horspool.ExactIff | PowerShellCookbook/ModSecurity-master/ext/mod_op_strstr.c:150-187 | For every pattern: the search finds the first occurrence, or reports none, in every text if and only if no byte before the last has a shift beyond its distance from the end. |
| Horspool.ShortSafe | PowerShellCookbook/ModSecurity-master/ext/mod_op_strstr.c:150-169 | Up to 64 bytes all shifts are safe; in longer patterns only bytes from number 63 on can have unsafe ones. |
| Horspool.LongUnsafe | PowerShellCookbook/ModSecurity-master/ext/mod_op_strstr.c:150-187 | A pattern of 65 bytes with an unsafe shift, and a text that holds it where the search reports nothing. |
| StatusEngine.Base32Encode | PowerShellCookbook/ModSecurity-master/apache2/msc_status_engine.c:47-90 | The shift-register loop writes the base32 text, cut to the size given and terminated when there is room; the dry run returns its length plus one. |
| StatusEngine.Base32 | PowerShellCookbook/ModSecurity-master/apache2/msc_status_engine.c:47-90 | The encoding has one symbol for every five bits, rounded up. |
| StatusEngine.SymbolExact | PowerShellCookbook/ModSecurity-master/apache2/msc_status_engine.c:74-82 | The symbols are those of the alphabet of RFC 4648. |
| StatusEngine.TestVector | PowerShellCookbook/ModSecurity-master/apache2/msc_status_engine.c:47-90 | A test vector of section 10 of RFC 4648. |
| StatusEngine.RoundTrip | PowerShellCookbook/ModSecurity-master/apache2/msc_status_engine.c:47-90 | Decoding the encoding by section 6 of RFC 4648 gives every byte string back. |
| StatusEngine.FillWithDots | PowerShellCookbook/ModSecurity-master/apache2/msc_status_engine.c:92-121 | Inserts a dot before every 32nd (on Windows 30th) character, or computes the room needed. |
| StatusEngine.DottedLabels | PowerShellCookbook/ModSecurity-master/apache2/msc_status_engine.c:92-121 | No label is longer than the spacing, and removing the dots gives the text back. |
| StatusEngine.PrepareHostnameLength | PowerShellCookbook/ModSecurity-master/apache2/msc_status_engine.c:388-412 | The length computed in advance leaves room for the dotted encoding, any timestamp of ten digits, the suffix and the terminator. |
| StatusEngine.HostnameDecodes | PowerShellCookbook/ModSecurity-master/apache2/msc_status_engine.c:388-432 | The dotted encoding of every byte string keeps to the label length and decodes to it. |
| Arguments.ParseArguments | PowerShellCookbook/ModSecurity-master/apache2/msc_parsers.c:238-336 | For every input the loops give the arguments of the plain reading: split at the separator, drop one empty segment at the end, split each segment at its first equals sign; all writes stay inside the buffer of one byte more than the input. |
| Arguments.CopyUpTo | PowerShellCookbook/ModSecurity-master/apache2/msc_parsers.c:269-284 | The inner loops copy up to the first stop character. |
| Arguments.Origins | PowerShellCookbook/ModSecurity-master/apache2/msc_parsers.c:266-286 | Names and values are the decoded slices of the input that the recorded offsets and lengths name; the slices are in order and apart from each other. |
| Arguments.ArgumentsTile | PowerShellCookbook/ModSecurity-master/apache2/msc_parsers.c:238-336 | Nothing of the input is lost: the first argument starts at its beginning, one separator stands between two arguments, and behind the last at most one byte, an equals sign or a separator. |
| Arguments.RoundTrip | PowerShellCookbook/ModSecurity-master/apache2/msc_parsers.c:238-336 | Printed pairs parse back if and only if no name holds the separator or an equals sign and no value the separator. |
| Arguments.EncodedRoundTrip | PowerShellCookbook/ModSecurity-master/apache2/msc_parsers.c:238-336 | With an encoding that the decoder undoes and that hides both special bytes, every list of pairs comes back. |
| Sanitising.Select | PowerShellCookbook/ModSecurity-master/apache2/msc_logging.c:1716-1757 | The selection loop ends with the selectable arguments by strictly descending offset, every offset covered. |
| Sanitising.Sanitise | PowerShellCookbook/ModSecurity-master/apache2/msc_logging.c:1774-1838 | Popping the stack masks exactly the ranges of the selected arguments. |
| Sanitising.SanitiseBody | PowerShellCookbook/ModSecurity-master/apache2/msc_logging.c:1716-1838 | In a body of one chunk exactly the raw value bytes of the selected arguments become stars. |
| Sanitising.SanitiseParsed | PowerShellCookbook/ModSecurity-master/apache2/msc_logging.c:1716-1838 | With arguments parsed from the body and marked together with any of the query string, a byte becomes a star if and only if it lies in the raw value of a marked argument of the body. |
| Sanitising.ParsedConsistent | PowerShellCookbook/ModSecurity-master/apache2/msc_parsers.c:276-286 | Arguments marked from one parsed body lie inside it, and an offset belongs to one of them: what SanitiseBody asks for. |
| Sanitising.LoggedArguments | PowerShellCookbook/ModSecurity-master/apache2/msc_logging.c:1716-1838 | Parsing the masked body finds the same arguments: same names, same places, only masked values differ. |
| RuleMerge.CopyRulesPhase | PowerShellCookbook/ModSecurity-master/apache2/apache2_config.c:172-259 | The loop with its mode variable copies exactly the chains whose first rule no exception excludes. |
| RuleMerge.IsExcluded | PowerShellCookbook/ModSecurity-master/apache2/apache2_config.c:186-234 | The exceptions leave the count positive exactly when none of them matches the rule. |
| RuleMerge.ExcludedExact | PowerShellCookbook/ModSecurity-master/apache2/apache2_config.c:186-234 | A rule is excluded if and only if an exception matches its id, its message, or one of its tags. |
| RuleMerge.KeptExact | PowerShellCookbook/ModSecurity-master/apache2/apache2_config.c:172-259 | Rule by rule and in order, exactly those are copied whose chain starts with a rule that no exception matches. |
| RuleMerge.KeptAppend | PowerShellCookbook/ModSecurity-master/apache2/apache2_config.c:172-259 | Copying distributes over the concatenation of complete lists of chains. |
| RuleMerge.KeptTwice | PowerShellCookbook/ModSecurity-master/apache2/apache2_config.c:172-259 | Filtering by one list of exceptions and then another is filtering by both at once. |
| RuleMerge.IncompleteChains | PowerShellCookbook/ModSecurity-master/apache2/apache2_config.c:255-257 | A list that ends inside a chain, a rule behind it and an exception for which copying does not distribute. |
| RuleMerge.DistributesExactly | PowerShellCookbook/ModSecurity-master/apache2/apache2_config.c:172-259 | Copying distributes over a list and whatever follows it, for all exceptions, if and only if the list does not end inside a chain. |
| RuleMerge.AssociativeExactly | PowerShellCookbook/ModSecurity-master/apache2/apache2_config.c:402-479 | Merging below a context is associative for all contexts below it if and only if none of its rule lists ends inside a chain. |
| RuleMerge.MergeContexts | PowerShellCookbook/ModSecurity-master/apache2/apache2_config.c:402-479 | The branches of the merge give the merged inheritance flag, rules and exceptions. |
| RuleMerge.MergeExact | PowerShellCookbook/ModSecurity-master/apache2/apache2_config.c:402-479 | A child that turns inheritance off starts over with its own rules; any other, whether it says on or nothing, has the flag of the parent and in each of the five phases the rules of the parent that its exceptions leave, followed by its own. |
| RuleMerge.MergeAssociative | PowerShellCookbook/ModSecurity-master/apache2/apache2_config.c:402-479 | Merging is associative on inheritance flag, rule lists of all five phases and exceptions, for complete chains. |
| RuleMerge.MergeInherits | PowerShellCookbook/ModSecurity-master/apache2/apache2_config.c:402-479 | A context without settings of its own inherits everything unchanged. |

## Left out

- Memory pools, allocation failures, debug logging and error texts: no behaviour of interest.
- Multipart: `multipart_init` (the boundary and its flags are parameters), the MD5 of file data, temporary file names, `buf_offset` and the part offset (adjusted by the held-back bytes in a way that follows no position in the input), the counter of non-file bytes, `msc_multipart.c` functions behind parsing (argument lists, reconstructed bodies), copies of names on the request record.
- IpTree.CPTTree.AddElement: the netmask arrays of inner nodes and `InsertNetmask` are not modelled, because those arrays are reallocated without their contents; they do not influence shape or entries. Key widths below 32 bytes, as the source's 8-bit bit lengths require; one width for each tree, as its two callers use it.
- IpTree.CPTTree.Attach: the move of netmask arrays to the new inner node, for the same reason.
- IpTree.CPTTree.CreateHead: the netmask array of a first entry that is a block, for the same reason.
- IpTree.CPTTree.FindElement: only trees of full-length entries. There no netmask array is ever allocated (`msc_tree.c:221-222`, `255-256`), so the fallback to address blocks finds no node with netmasks and returns nothing; in other trees its result depends on those arrays.
- Acmp.Scanner.ProcessQuick: the pattern text handed back with a match, which the return value does not depend on.
- Acmp: callbacks and node texts, UTF-8 letters. Siblings are a sequence in each node, and search trees are values, so aliasing between them is not captured.
- Matching.ExactIff: stated for dictionaries as sets of folded words; the folding is in Acmp.
- PartParser: the memory pool of each entry and input/output errors of the callback's caller.
- EntryReader.EntryVerdict: what the regular expressions and field parsers of the handlers for the parts A, B, F and H accept is a parameter (`Handlers`), as is the user callback. At the end of part B the source also runs the handler of part F, because a `break` is missing (`alp2.c:1206-1209`); the `end` parameter stands for whatever is run.
- AuditLog: how the content of each part is made; a part's content is any text.
- RequestBody: streaming processors, the limit on non-file bytes, `modsecurity_request_body_to_stream`; chunks are sequences rather than 8192-byte arrays; a file is a sequence of bytes, its reads return as much as asked for while it lasts.
- RequestBody.Body.Retrieve: a limit of 0, which makes no progress, and an unlimited call after a partial one, which reads past a chunk.
- Arguments: URL decoding is a parameter that maps raw to decoded bytes, with the empty string decoded to itself where a round trip needs it; the in-place decoding inside the scratch buffer and the count of invalid encodings are not modelled.
- Sanitising: bodies of several chunks, where the loop does not resume, and other parts of the log. The length limit of the combined access line (`construct_log_vcombinedus_limited`) is plain arithmetic on string lengths, and the request line and headers are masked by the same kind of loop or by patterns.
- RuleMerge: settings that are plain overrides, `of_mime_types`, engines and pools; the ranges and regular expressions of exceptions are parameters. First rules of chains have an action set, which the source dereferences.
- StatusEngine.Base32Encode: the shift register has 16 bits where the source has an `int`; at most the 12 low bits are ever read.
- StatusEngine.PrepareHostnameLength: the host name is assembled by a formatted print whose target is also an argument; only lengths and content intended are stated.
- Cryptography, XML and JSON wrappers, directive tables, the rule engine, Apache hooks and the non-C files of the repository: libraries, data or user interface.
