# SRL: models and proofs

SRL is a C++ utility library.  This project models the parts of it that carry proof obligations of their own and
proves what each part promises.  Code that changes objects step by step is modelled by classes and methods with
loops; every such method is proved to compute a function of the old state, and the results are proved about that
function.

| part | files |
|---|---|
| XML-RPC values: printer, cursor parser, reader | Xml, XmlEntities, Numbers, Rpc, RpcReader, RpcPrinter, RpcRoundTrip, RpcTheorems, RpcTexts, RpcSafety |
| JSON: parser over a stream, printer | Json, JsonRoundTrip, JsonDocuments, JsonBalance, JsonStreams |
| recursive mutex and worker pool | Mutex, Pool |
| Mersenne Twister | Random |
| Gregorian dates and julian numbers | Date |
| buffered line reading on a socket | ByteBuffer, LineReader |
| internet checksum, ICMP echo request | CheckSum, Icmp |
| Base 64, percent encoding, query map, backslash escapes | Base64, PercentCoding, UriQuery, UriTheorems, Escape |
| string primitives and small types they share | CText, Shared |

Conventions of the model:

- A Dafny `char` with a code below 256 is one C `char`; a C `char` is signed, so codes from 128 on are negative in
  comparisons.  Codes from 256 on have no C counterpart.
- Integer widths and wrap-around are written out where the code depends on them.  A signed overflow of `_sum` in the
  checksum, which the language leaves undefined, is taken to wrap.
- `strtol` works on a 64-bit `long`.
- `String(const char*, 0)` copies up to the terminator and `String += '\0'` does nothing; `CText.Mid` and
  `CText.Append` say so, and several exact conditions below come from it.
- C++ exceptions are outcomes.  Undefined behaviour that an input can reach is an outcome of its own (`Undefined` in
  the XML reader, `None` in the query parser, a result `ok` that is false in the byte buffer, the Base 64 decoder and the JSON printer) and
  the contracts say when it is reached.  A pointer that outlives its block is a reference to the old block.
- One step system covers both pools: `HttpServer` is the one without a waiter semaphore and with two starting members.
- What the outside world does is a parameter: the seed, the bytes and gaps a socket meets, the clock readings, the
  byte order of the host, the timestamp.

## Model

| member | source | states |
|---|---|---|
| Xml.Parser.GetNextElement | cpp/src/xml/XML.cpp:229-257 | the parser object moves its fields exactly as the cursor function `NextElement` says, over every text |
| Xml.Parser.DoParseElement | cpp/src/xml/XML.cpp:259-278 | a tag ends at the next `>`; without one it throws, with the name read so far kept |
| Xml.Parser.DoTakeTag | cpp/src/xml/XML.cpp:280-302 | closing, empty-element and `?` tags; the tag `<?>` has no defined result |
| Xml.Parser.DoSplitAttributes | cpp/src/xml/XML.cpp:304-320 | an `=` behind the first character splits at the first blank, and throws when there is none |
| Xml.Parser.DoHasContent | cpp/src/xml/XML.cpp:379-410 | content is known already, or the next character that is no white space is not `<` |
| Xml.Parser.DoGetContent | cpp/src/xml/XML.cpp:412-423 | content reaches to the next `<`; an empty piece takes the whole tail of the text |
| Xml.NextElement | cpp/src/xml/XML.cpp:229-257 | when an element is returned the unread text has strictly shrunk |
| Xml.OddTags | cpp/src/xml/XML.cpp:280-302 | what the one-character tags give |
| Xml.ReadTag | cpp/src/xml/XML.cpp:229-320 | behind any gap without `<` a plain tag is read with its name and closing mark, and the cursor stops right behind `>` |
| Xml.ReadContent | cpp/src/xml/XML.cpp:379-423 | non-blank text up to the next `<` is the content, and the cursor stops in front of that `<` |
| Xml.NoContent | cpp/src/xml/XML.cpp:379-410 | white space up to a tag is no content |
| Xml.TagOddFronts | cpp/src/xml/XML.cpp:301-320 | an '=' in front makes no attributes, and a blank in front leaves no name |
| Xml.AnyTag | cpp/src/xml/XML.cpp:229-276 | the text between '<' and the next '>', behind anything without '<', is taken as the tag, and the cursor stops behind it |
| Xml.TagShapes | cpp/src/xml/XML.cpp:277-299 | `<x>` opens, `</x>` and `<x/>` close, `<?x?>` leaves the closing mark as it was; the name is `x` each time |
| Xml.TagAttributes | cpp/src/xml/XML.cpp:277-320 | behind a name and a blank, text with an '=' makes the tag one with attributes, which may end in the closing '/' |
| Xml.TagThrows | cpp/src/xml/XML.cpp:301-309 | an '=' behind the first character without a blank throws |
| Xml.Unclosed | cpp/src/xml/XML.cpp:259-273 | a '<' without '>' throws; the rest of the text is the name |
| Xml.NoMoreTags | cpp/src/xml/XML.cpp:229-252 | without a '<' there is no next element and the text is used up |
| Xml.ContentAtEnd | cpp/src/xml/XML.cpp:379-410 | a closing element has no content; white space up to the end of the text throws |
| Xml.ContentUnclosed | cpp/src/xml/XML.cpp:412-420 | content that no tag follows throws |
| XmlEntities.Encode | cpp/src/xml/XML.cpp:576-612 | the loop computes `EncodeText`: entities for the five special characters, control characters dropped |
| XmlEntities.Decode | cpp/src/xml/XML.cpp:531-574 | the loop computes `DecodeText` |
| XmlEntities.EncodeClean | cpp/src/xml/XML.cpp:576-612 | encoded text has no special character but `&`, and nothing that encoding drops |
| XmlEntities.DecodeOfEncode | cpp/src/xml/XML.cpp:531-612 | decoding an encoded text gives the kept characters; when the first of them is special, the encoded text stands in front once more |
| XmlEntities.EntityRoundTrip | cpp/src/xml/XML.cpp:531-612 | `decode(encode(s))` is `s` without the dropped characters if and only if the first kept character is not special |
| XmlEntities.EncodeFixed | cpp/src/xml/XML.cpp:576-612 | encoding changes nothing if and only if there is nothing special and nothing to drop |
| XmlEntities.EncodeOne | cpp/src/xml/XML.cpp:576-612 | what becomes of each single character: the five entities, codes 9 to 13 and 32 to 127 as they are, nothing of the others |
| XmlEntities.EncodeJoins | cpp/src/xml/XML.cpp:576-612 | encoding works character by character |
| XmlEntities.DecodeFirst | cpp/src/xml/XML.cpp:531-548 | what stands before the first '&' is copied, but when that is nothing the whole text is |
| XmlEntities.DecodeCopies | cpp/src/xml/XML.cpp:548-574 | the decoding loop copies text without '&' and '\0' |
| XmlEntities.DecodeAmpersand | cpp/src/xml/XML.cpp:548-574 | it reads each of the five entities as its character, copies an '&' that starts none, and drops '\0' |
| Numbers.Val | cpp/src/String.cpp:1224-1246 | digits stored backwards into the 34-byte buffer are the positional digits with their sign, for every 32-bit number and base; other bases give the empty text |
| Numbers.ValUnsigned | cpp/src/String.cpp:1248-1269 | the same for every unsigned 32-bit number, without a sign |
| Numbers.DigitsDenote | cpp/src/String.cpp:1224-1246 | the printed digits have the number as their positional value |
| Numbers.DigitsProper | cpp/src/String.cpp:1224-1246 | all are digits of the base, and a leading zero occurs only in "0" |
| Numbers.DigitsLength | cpp/src/String.cpp:1224-1246 | a number below base^e has at most e digits |
| Numbers.LongestText | cpp/src/String.cpp:1224-1246 | 32 binary digits, sign and terminator fill the 34 bytes exactly |
| Numbers.ToIntOfVal | cpp/src/String.cpp:1224-1332 | reading back a printed 32-bit number gives the number |
| Numbers.ToIntReads | cpp/src/String.cpp:1329-1337 | any text of white space, a sign, digits and a rest reads as the signed positional value, brought into the range of a 64-bit `long` and cut to 32 bits |
| Rpc.FromXml | cpp/src/rpc/RpcValue.cpp:55-150 | defined on every text: each entry of the recursion and each loop turn follows an element read that shrank the unread text, and a finished read never leaves more than it found |
| Rpc.StructItems | cpp/src/rpc/RpcValue.cpp:228-276 | the struct loop, with its throw for a key whose hash is there already; it ends on every text |
| Rpc.ArrayItems | cpp/src/rpc/RpcValue.cpp:404-435 | the array loop ends on every text |
| RpcReader.ReadValue | cpp/src/rpc/RpcValue.cpp:55-150 | recursion over one shared parser object returns or throws what `FromXml` says and leaves the cursor there |
| RpcReader.ReadTyped | cpp/src/rpc/RpcValue.cpp:73-147 | the same for a value with a type tag |
| RpcReader.ReadLeaf | cpp/src/rpc/RpcValue.cpp:77-121 | the same for the int, boolean, string and double leaves |
| RpcReader.ReadDateTime | cpp/src/rpc/RpcValue.cpp:122-139 | the same for dateTime text, which is kept when sscanf would convert all six fields |
| RpcReader.ReadBinary | cpp/src/rpc/RpcValue.cpp:465-483 | the same for base64 |
| RpcReader.ReadArray | cpp/src/rpc/RpcValue.cpp:404-435 | the same for the array constructor |
| RpcReader.ReadItems | cpp/src/rpc/RpcValue.cpp:404-435 | the same for its loop |
| RpcReader.ReadStruct | cpp/src/rpc/RpcValue.cpp:228-276 | the same for the struct constructor |
| RpcReader.ReadMemberName | cpp/src/rpc/RpcValue.cpp:228-276 | the same for the name of a member |
| RpcPrinter.AsXml | cpp/src/rpc/RpcValue.cpp:213-226 | the recursive printer appends exactly the text `Print` of the tree |
| RpcPrinter.AppendMembers | cpp/src/rpc/RpcValue.cpp:284-303 | the struct loop prints the members in order |
| RpcPrinter.AppendItems | cpp/src/rpc/RpcValue.cpp:442-453 | the array loop prints the items in order |
| RpcRoundTrip.Printed | cpp/src/rpc/RpcValue.cpp:213-303 | the printed text is the nested tag text that the reading lemmas walk along |
| RpcRoundTrip.ReadsValue | cpp/src/rpc/RpcValue.cpp:55-150 | reading the text of any tree, followed by any text, gives `Reparse` of the tree and stops right behind it |
| RpcRoundTrip.ReadsArray | cpp/src/rpc/RpcValue.cpp:404-435 | the same for arrays |
| RpcRoundTrip.ReadsStruct | cpp/src/rpc/RpcValue.cpp:228-276 | the same for structs |
| RpcTheorems.ReadsPrinted | cpp/src/rpc/RpcValue.cpp:55-303 | `FromXml` on what `asXml` printed, behind and before any text, rebuilds `Reparse` of the tree and leaves the cursor just past `</value>`; where `Reparse` is None it throws |
| RpcTheorems.Reread | cpp/src/rpc/RpcValue.cpp:55-303 | printing a tree and reading it with a parser object does the same |
| RpcTheorems.RoundTrip | cpp/src/rpc/RpcValue.cpp:55-453 | the tree comes back as itself if and only if it is printable: a condition on each string, each name and the hashes of the names |
| RpcTheorems.LeavesRoundTrip | cpp/src/rpc/RpcValue.cpp:152-198 | every int, both booleans, and exactly the strings that are empty, or not blank, without dropped characters and not starting with a special one |
| RpcTexts.ReadsOnlyValues | cpp/src/rpc/RpcValue.cpp:59-64 | on any other element the reader gives null and reads nothing |
| RpcTexts.ReadsDoc | cpp/src/rpc/RpcValue.cpp:55-150 | any spelled value, with every type tag the reader knows and any white space between the tags, is read to its `</value>` and gives what it denotes; a blank name or one whose hash is taken throws |
| RpcTexts.LeafText | cpp/src/rpc/RpcValue.cpp:77-121 | for the literal texts: `<value><i4>t</i4></value>` and `<int>` give an int leaf with `strtol` of t, `<boolean>` a boolean, `<double>` a double, `<string>` a string with t decoded; blank text gives null, or an empty string |
| RpcTexts.ReadsBare | cpp/src/rpc/RpcValue.cpp:66-71 | text right in `<value>` gives a string with the text decoded; the element keeps its content and the cursor stays in front of it |
| RpcTexts.ReadsUnknown | cpp/src/rpc/RpcValue.cpp:73-150 | any other tag gives null, and one more tag is taken, whichever it is |
| RpcTexts.ReadsNoBinary | cpp/src/rpc/RpcValue.cpp:144-145 | a base64 value throws whatever its content |
| RpcTexts.ReadsNoDate | cpp/src/rpc/RpcValue.cpp:122-130 | a date that does not scan gives null with the cursor still in front of its closing tag |
| RpcTexts.DatesScan | cpp/src/rpc/RpcValue.cpp:129 | the form the setter prints scans, whatever follows it |
| RpcTexts.NumberScanned | cpp/src/rpc/RpcValue.cpp:129 | each number of the format takes white space, a sign and as many digits as its width leaves, or fails |
| RpcTexts.ScannedDates | cpp/src/rpc/RpcValue.cpp:129 | a text that scans holds a 'T' and two colons in this order, each behind a digit |
| RpcTexts.ArrayNeedsData | cpp/src/rpc/RpcValue.cpp:404-414 | an array whose next tag is not `<data>` throws |
| RpcTexts.ArrayNeedsEnd | cpp/src/rpc/RpcValue.cpp:416-453 | so does one whose values are not followed by `</data>` |
| RpcTexts.ArrayNeedsClosing | cpp/src/rpc/RpcValue.cpp:416-453 | or this not by `</array>` |
| RpcTexts.ArrayOfBareThrows | cpp/src/rpc/RpcValue.cpp:404-453 | an array with an untyped string in front always throws, since its `</value>` ends the loop |
| RpcTexts.StructOfBareEnds | cpp/src/rpc/RpcValue.cpp:228-276 | a struct whose first member is an untyped string ends with that member |
| RpcTexts.MemberNeedsName | cpp/src/rpc/RpcValue.cpp:239-246 | a member without `<name>` throws |
| RpcTexts.MemberNeedsNameEnd | cpp/src/rpc/RpcValue.cpp:248-262 | so does one whose name is blank or not closed |
| RpcTexts.MemberNeedsValue | cpp/src/rpc/RpcValue.cpp:264-269 | and one without `<value>` |
| RpcTexts.HashOfMore | cpp/src/String.cpp:247-259 | the hash of a name goes through it character by character |
| RpcTexts.HashStepIs | cpp/src/String.cpp:253-256 | each step multiplies by 33 and takes the xor with the signed character |
| RpcSafety.NextElementDefined | cpp/src/xml/XML.cpp:229-302 | reading an element is undefined exactly when the next tag is `<?>` |
| RpcSafety.FromXmlDefined | cpp/src/rpc/RpcValue.cpp:55-150 | on every text without `<?>`, well-formed or not, the reader returns or throws |
| RpcSafety.FromXmlUndefined | cpp/src/rpc/RpcValue.cpp:55-75 | on a value without content, wherever in a text, the reader is undefined when the next tag is `<?>` |
| RpcSafety.OddTagLeaves | cpp/src/rpc/RpcValue.cpp:55-75 | such a text |
| Json.Match | cpp/src/json/JSON.cpp:13-27 | `match` never lengthens the unread text and shortens it when it succeeds |
| Json.ParseValue | cpp/src/json/JSON.cpp:159-197 | every parse ends on every text; a parsed value has consumed something |
| JsonStreams.InputStream.Match | cpp/src/json/JSON.cpp:13-27 | the loop over the stream computes `Match`, state bits included |
| JsonStreams.InputStream.ParseString | cpp/src/json/JSON.cpp:29-76 | the loop computes `ParseString` |
| JsonStreams.InputStream.ParseNumber | cpp/src/json/JSON.cpp:97-105 | where no number starts nothing but white space is consumed and the state bits are cleared |
| JsonStreams.InputStream.ParseValue | cpp/src/json/JSON.cpp:159-197 | the alternatives tried on one stream give `ParseValue` |
| JsonStreams.InputStream.ParseArray | cpp/src/json/JSON.cpp:207-227 | the loop computes `ParseArray` |
| JsonStreams.InputStream.ParseObject | cpp/src/json/JSON.cpp:116-143 | the loop computes `ParseObject` |
| JsonStreams.OutputStream.StreamString | cpp/src/json/JSON.cpp:229-271 | the stream grows by exactly the quoted text |
| JsonStreams.OutputStream.PrintValue | cpp/src/json/JSON.cpp:273-293 | the stream grows by exactly the printed value, unless an empty array is reached, where the printer is undefined |
| JsonStreams.OutputStream.PrintArray | cpp/src/json/JSON.cpp:295-302 | the same for an array |
| JsonStreams.OutputStream.PrintObject | cpp/src/json/JSON.cpp:304-317 | the same for an object |
| JsonStreams.Reread | cpp/src/json/JSON.cpp:159-317 | printing any tree to one stream and parsing from another gives the tree with nothing left if and only if it is clean and has no empty object |
| JsonRoundTrip.EscapesOfSection7 | cpp/src/json/JSON.cpp:29-271 | parser and printer know exactly the eight short escapes of section 7 of RFC 8259, with their code points |
| JsonRoundTrip.OddEscapes | cpp/src/json/JSON.cpp:259-263 | any other control character is printed with six hexadecimal digits, and one from 128 on, which is negative, with eight |
| JsonRoundTrip.ReadsText | cpp/src/json/JSON.cpp:29-271 | a printed string is read back with each character that has no short escape turned into the text of its `\u` form |
| JsonRoundTrip.ReadsValue | cpp/src/json/JSON.cpp:116-317 | a printed tree without empty containers, behind white space and before any text, is read back as `Reparse` of it and exactly its text is consumed |
| JsonRoundTrip.RoundTrip | cpp/src/json/JSON.cpp:116-317 | for a tree without empty containers the result is the tree itself if and only if no string or key holds a character without a short escape below 32 or from 128 on |
| JsonRoundTrip.PrintIsInjective | cpp/src/json/JSON.cpp:229-317 | two trees that come back have different texts |
| JsonRoundTrip.EmptyObjectLost | cpp/src/json/JSON.cpp:116-143 | a printed empty object is rejected, and as the value of a member it takes the bracket of the object around it |
| JsonDocuments.NumberStarts | cpp/src/json/JSON.cpp:97-105 | a number may start with a digit, a sign or a point |
| JsonDocuments.PutIsStore | cpp/src/json/JSON.cpp:136 | entering a member is a map store: the key has the new value, every other key its own, and the members stay in key order |
| JsonDocuments.BeforeIsLexical | cpp/src/json/JSON.cpp:136 | the key order is lexical |
| JsonDocuments.SortedIsMap | cpp/src/json/JSON.cpp:136 | sorted members with the same values for all keys are the same |
| JsonDocuments.ReadsDocument | cpp/src/json/JSON.cpp:29-227 | any document without numbers and empty objects, with white space anywhere, any escapes, keys in any order and repeated, and trailing commas in arrays, is read to its end and gives what it denotes |
| JsonDocuments.ReadsObjectText | cpp/src/json/JSON.cpp:116-143 | an object text gives the members in key order, each key with the value of its last pair |
| JsonDocuments.PartialMatch | cpp/src/json/JSON.cpp:13-27 | a pattern that goes wrong stays consumed up to there |
| JsonDocuments.CutMatch | cpp/src/json/JSON.cpp:13-27 | where the text ends within a pattern it fails, unless only a repeated last character is missing |
| JsonDocuments.OddWords | cpp/src/json/JSON.cpp:13-95 | so `nul` at the end of a text is null, and `trufalse` is false |
| JsonDocuments.EndedMatch | cpp/src/json/JSON.cpp:13-27 | nothing matches on a stream that has ended or failed |
| JsonDocuments.OpenQuote | cpp/src/json/JSON.cpp:29-76 | a string without its closing quote is rejected |
| JsonDocuments.NothingParsed | cpp/src/json/JSON.cpp:159-197 | white space alone is no value |
| JsonBalance.ParseValueNet | cpp/src/json/JSON.cpp:159-197 | on every text a parse takes at least as many opening as closing braces, strings aside |
| JsonBalance.MembersNet | cpp/src/json/JSON.cpp:116-143 | inside an object one closing brace more at most |
| JsonBalance.PrintNet | cpp/src/json/JSON.cpp:229-317 | a printed tree closes what it opens |
| JsonBalance.HollowValue | cpp/src/json/JSON.cpp:116-317 | a printed tree with an empty object anywhere makes the parser take an opening brace too many |
| JsonBalance.RoundTripExactly | cpp/src/json/JSON.cpp:116-317 | of all trees the printer is defined on, whatever follows their text, exactly those come back that have no empty object and only characters that survive |
| Mutex.StepKeeps | cpp/src/sys/Mutex.cpp:40-122 | each single read, write or pthread call of any thread keeps the invariant |
| Mutex.RunSafe | cpp/src/sys/Mutex.cpp:40-122 | over every interleaving below a nesting of 2^32: at most one thread is inside, `_thread_id == T` implies that T holds the pthread mutex, the counter is the nesting depth between operations, and an unlock throws exactly when its thread is not inside |
| Mutex.ThrowChangesNothing | cpp/src/sys/Mutex.cpp:98-104 | in every run the first step of an unlock returns with every field as it was exactly when its thread is not inside |
| Mutex.Decides | cpp/src/sys/Mutex.cpp:40-122 | in every run, what the next step inside an operation decides: a lock or tryLock of a thread inside is bound to enter; a lock enters once it gets the pthread mutex; a tryLock comes back empty-handed, with every field as it was, if and only if another thread holds it; an unlock of a thread inside is bound to leave, and its last step frees the mutex |
| Mutex.DueRuns | cpp/src/sys/Mutex.cpp:40-122 | an operation bound to enter or leave does so after as many of its own steps as it has left, whatever the other threads do in between |
| Mutex.TryLockEnters | cpp/src/sys/Mutex.cpp:40-66 | so a tryLock that finds no other thread at the pthread mutex is back four steps later, nested one deeper |
| Mutex.EntersAlone | cpp/src/sys/Mutex.cpp:40-96 | a lock or tryLock that runs alone while no other thread has the mutex ends inside, with owner, flag and counter set |
| Mutex.MayStart | cpp/src/sys/Mutex.cpp:40-122 | a thread between operations may start any of the three |
| Mutex.Quiescent | cpp/src/sys/Mutex.cpp:98-122 | when nobody is inside, the mutex is as constructed |
| Mutex.Progress | cpp/src/sys/Mutex.cpp:40-122 | a thread can always step unless it waits for a thread that is inside or can itself step |
| Mutex.DeepNestingBreaks | cpp/src/sys/Mutex.cpp:79-104 | at a nesting of 2^32, and no deeper, the owner's unlock throws and leaves it inside |
| Mutex.SafeExactly | cpp/src/sys/Mutex.cpp:40-122 | the runs of nesting at most n are all safe if and only if n is below 2^32 |
| Pool.StepKeeps | cpp/src/sys/ThreadPool.cpp:48-137 | each step of the dispatcher or a worker keeps the invariant |
| Pool.RunSafe | cpp/src/sys/ThreadPool.cpp:48-146 | over every run: available and busy are disjoint, together all members, never more than the maximum; each semaphore holds 0 or 1 permits, the waiter one exactly when nobody is busy; the retried `_getThread` never returns NULL |
| Pool.SomeoneComes | cpp/src/sys/ThreadPool.cpp:111-127 | while the dispatcher waits without a permit some worker's completion is under way or to come |
| Pool.StrandedStep | cpp/src/sys/ThreadPool.cpp:111-137 | whoever steps while the dispatcher waits without a permit, the dispatcher goes on waiting and the workers come closer to posting one |
| Pool.StrandedSchedule | cpp/src/sys/Semaphore.cpp:113-131 | so a schedule without a permit is no longer than the workers' ranks allow |
| Pool.NoLostWakeUp | cpp/src/sys/ThreadPool.cpp:48-137 | under every schedule, a waiting dispatcher gets its permit within 13 steps a member, and until then somebody can step |
| Pool.EveryRunWakes | cpp/src/net/HttpServer.cpp:478-568 | the same from any waiting state of any run of either pool |
| Pool.OtherSizesFail | cpp/src/sys/ThreadPool.cpp:6-61 | for every other pair of sizes some run ends with the retried call returning NULL |
| Pool.RetryIsSafeExactly | cpp/src/sys/ThreadPool.cpp:6-61 | the retry is safe in all runs if and only if the maximum is at least one and at least the starting size |
| Random.TwistIsMatrix | cpp/include/srl/math/Random.h:86-91 | `twist` is the matrix step of MT19937 |
| Random.Recurrence | cpp/src/math/Random.cpp:38-51 | the terms follow the recurrence of MT19937, of degree 624 with middle term 397 |
| Random.SeedStepColumns | cpp/src/math/Random.cpp:30-34 | what the seeding loop makes of zero at every index and of each single bit |
| Random.FirstTerms | cpp/src/math/Random.cpp:20-34 | the first terms for the seed 5489 are those of MT19937 |
| Random.Generator.Initialize | cpp/src/math/Random.cpp:20-36 | the array holds the first generation of the seeded sequence and is reloaded once |
| Random.Generator.Reload | cpp/src/math/Random.cpp:38-51 | the three-part rewrite in place turns terms base..base+N of the recurrence into the next N |
| Random.TwistTerm | cpp/src/math/Random.cpp:38-51 | the three cells a step reads are the terms the recurrence asks for, old or new |
| Random.Generator.RandomInt | cpp/src/math/Random.cpp:63-79 | the k-th call returns the tempered term x[N+k] |
| Random.FirstNumbers | cpp/src/math/Random.cpp:20-79 | the first k numbers of a fresh generator are x[N], x[N+1], ... tempered, for every seed and every k |
| Random.Generator.RandomIntUpTo | cpp/src/math/Random.cpp:81-99 | the result is the first masked number of the sequence that is not above n; all those before it are |
| Random.TemperBijective | cpp/src/math/Random.cpp:73-78 | tempering is a bijection on 32-bit words |
| Random.TemperLinear | cpp/src/math/Random.cpp:73-78 | tempering is linear over bits |
| Random.TemperColumns | cpp/src/math/Random.cpp:73-78 | and these are the 32 columns of its matrix |
| Random.MaskIsLeast | cpp/src/math/Random.cpp:83-91 | the mask is the least 2^k-1 not below n |
| Random.MaskAccepts | cpp/src/math/Random.cpp:83-97 | every value of 0..n survives the mask and is accepted, no value above n is, and more than half of the masked values are accepted |
| Date.JulianIsDays | cpp/src/Date.cpp:168-180 | the forward formula counts the days since 1 March -4800 |
| Date.FromJulianCounts | cpp/src/Date.cpp:182-198 | the backward formula gives a valid date that many days after it |
| Date.TakenApart | cpp/src/Date.cpp:182-198 | no unsigned intermediate of the backward formula wraps for numbers from -32044 to 1073673254 |
| Date.ComputesExactly | cpp/src/Date.cpp:168-180 | no signed intermediate of the forward formula overflows if and only if the year counted from March lies within 1469872 of -4800 |
| Date.DateRestoredExactly | cpp/src/Date.cpp:168-198 | for every valid date with a 16-bit year, the backward formula restores it if and only if it is not before 1 March -4800 |
| Date.NumberRestored | cpp/src/Date.cpp:168-198 | the forward formula restores every number from -32044 on that the backward formula takes apart |
| Date.NumberRestoredExactly | cpp/src/Date.cpp:168-198 | among the numbers taken apart without wrapping it can be computed in 32 bits exactly up to 536828044 |
| Date.NumberRestoredEverywhere | cpp/src/Date.cpp:168-198 | over all 32-bit numbers, the way out and back gives the number if and only if it lies between -32044 and 536828044 |
| Date.JulianOrder | cpp/src/Date.cpp:303-350 | among valid dates from 1 March -4800 on, julian order is calendar order and equal numbers mean equal dates |
| Date.OrderedFromMarch4800 | cpp/src/Date.cpp:168-180 | no earlier starting date will do |
| Date.Neighbours | cpp/src/Date.cpp:261-273 | one more on the number is the next calendar day, one less the day before |
| Date.DaysLater | cpp/src/Date.cpp:214-218 | n more on the number is n calendar days later |
| Date.TablesAgree | cpp/src/Date.cpp:13-22 | the two tables agree with each other and with the month rule |
| Date.DayOfYearIsDistance | cpp/src/Date.cpp:127-140 | for years from -4800 on, `dayOfYear` is the julian distance from 1 January plus one, except exactly after February -4800 |
| Date.DayOfYearExactly | cpp/src/Date.cpp:127-180 | for every valid date it is, if and only if the date is before March or the year counts 366 numbers exactly when the leap rule gives it 366 days |
| Date.Date.constructor | cpp/src/Date.cpp:42-45 | the julian number of the given fields; sound for a valid date not before 1 March -4800 |
| Date.Date.OfJulian | cpp/src/Date.cpp:47-51 | the fields of the given number |
| Date.Date.UpdateJulian | cpp/src/Date.cpp:168-180 | assigns the forward formula |
| Date.Date.UpdateYmd | cpp/src/Date.cpp:182-198 | assigns the backward formula and makes the object sound inside the limits |
| Date.Date.Increment | cpp/src/Date.cpp:261-266 | a sound date becomes the next calendar day |
| Date.Date.Decrement | cpp/src/Date.cpp:268-273 | a sound date becomes the day before, whose next day it was |
| Date.Date.AddToDay | cpp/src/Date.cpp:214-218 | a sound date moves that many calendar days, either way |
| Date.Date.DayInYear | cpp/src/Date.cpp:132-135 | the table entry plus the day, and the julian distance from 1 January plus one |
| Date.Date.DaysInThisMonth | cpp/src/Date.cpp:127-130 | the month's length by the leap rule |
| Date.Date.IsBefore | cpp/src/Date.cpp:303-309 | calendar order of sound dates |
| Date.Date.Equals | cpp/src/Date.cpp:335-341 | equality of sound dates |
| ByteBuffer.ByteBuffer.constructor | cpp/src/io/ByteBuffer.cpp:69-78 | an empty buffer of the rounded size, for every 32-bit size |
| ByteBuffer.ByteBuffer.Resize | cpp/src/io/ByteBuffer.cpp:23-67 | bytes that fit stay in place, the last byte is cleared, the size is rounded up to a multiple of 16 above the wanted size, the block is another one exactly when the size changes; undefined exactly when the rounding wraps on a buffer that has a block |
| ByteBuffer.ByteBuffer.SetPosition | cpp/src/io/ByteBuffer.cpp:135-140 | a position behind the allocated size is refused and changes nothing |
| ByteBuffer.ByteBuffer.SetLength | cpp/src/io/ByteBuffer.cpp:142-146 | any length is taken and nothing else changes |
| ByteBuffer.ByteBuffer.MoveStart | cpp/src/io/ByteBuffer.cpp:148-157 | the unread bytes move to the front unchanged |
| ByteBuffer.ByteBuffer.Toggle | cpp/src/io/ByteBuffer.cpp:110-128 | entering write mode keeps the unread bytes in front of the cursor, entering read mode puts the cursor at the front |
| ByteBuffer.ByteBuffer.Find | cpp/src/io/ByteBuffer.cpp:199-207 | the first unread place of the byte, or -1 when no unread byte is equal |
| ByteBuffer.ByteBuffer.ReadUntil | cpp/src/io/ByteBuffer.cpp:160-178 | returned and unread bytes together are the bytes unread before; the returned part ends with the first `c` |
| ByteBuffer.ByteBuffer.WriteData | cpp/src/io/ByteBuffer.cpp:288-300 | the bytes in front of the cursor grow by the bytes written, the data end there, and the block is another one exactly when they reach its end; undefined exactly when the size needed does not fit |
| LineReader.TcpSocket.Recv | cpp/src/net/Socket.cpp:452-475 | takes the next arrival, or of data at most the free room, and leaves the rest on the wire |
| LineReader.TcpSocket.MakeRoom | cpp/src/net/TcpSocket.cpp:156-174 | compaction and growth keep the unread bytes; no room is left only when they fill 512016 bytes |
| LineReader.TcpSocket.BufferedRecv | cpp/src/net/TcpSocket.cpp:156-189 | the socket moves as `Receive` says: unread bytes followed by bytes to come do not change, and the size stays within 512016; a failure gives up just the unread bytes, and memory runs out only with 512016 of them |
| LineReader.TcpSocket.ReadUntil | cpp/src/net/TcpSocket.cpp:32-74 | in every waiting mode the call makes `n` receives and comes back as `Reads` says, which determines the outcome; a line is the front of the stream up to the first `c`, and nothing or endless waiting leave the stream as before |
| LineReader.TcpSocket.ReadNow | cpp/src/net/TcpSocket.cpp:42-46 | the NOW branch receives once and looks again |
| LineReader.TcpSocket.ReadForever | cpp/src/net/TcpSocket.cpp:48-58 | the FOREVER loop comes back with a line or a failure, or waits on a silent socket |
| LineReader.TcpSocket.ReadTimed | cpp/src/net/TcpSocket.cpp:61-71 | the timed loop receives while time is left and the socket becomes readable |
| LineReader.ReadsOnce | cpp/src/net/TcpSocket.cpp:32-74 | the state of the socket, the mode, the clock and what becomes readable determine the number of receives, the outcome and the state left |
| LineReader.NothingWhy | cpp/src/net/TcpSocket.cpp:42-73 | nothing comes back only when no `c` has been received, and: with NOW after one receive; with a time when that is used up, the socket does not become readable, or nothing more arrives |
| LineReader.LineComesNext | cpp/src/net/TcpSocket.cpp:32-74 | when the next arrival fits and holds `c`, and a receive may be made, the line comes with it |
| LineReader.LineComes | cpp/src/net/TcpSocket.cpp:32-74 | waiting forever, or with the socket readable and time left at every turn, the line comes when the stream holds a `c` among its first 512016 bytes and the peer does not hang up |
| LineReader.DisconnectedWhy | cpp/src/net/TcpSocket.cpp:32-74 | a call fails for the end of the connection only when that is next on the wire |
| LineReader.TimeLeftSteady | cpp/src/net/TcpSocket.cpp:61-71 | each turn takes off all the time passed since the start |
| LineReader.ReceiveTakes | cpp/src/net/TcpSocket.cpp:156-183 | a receive takes the whole next arrival, or of data that do not fit more than 256 bytes or what is left of the largest buffer, unless that is full |
| LineReader.ReceiveKeeps | cpp/src/net/TcpSocket.cpp:156-189 | it keeps all bytes in order, and fails only when the largest buffer is full or the connection ends |
| LineReader.TcpSocket.ReadLines | cpp/src/net/TcpSocket.cpp:32-74 | repeated calls on one socket form a run, so their results are the verdicts of the byte stream |
| LineReader.Grown | cpp/src/net/TcpSocket.cpp:162-174 | the sizes a socket's buffer can take |
| LineReader.ServesVerdict | cpp/src/net/TcpSocket.cpp:32-74 | each call delivers the next verdict that the byte stream alone decides, or none |
| LineReader.RunDelivers | cpp/src/net/TcpSocket.cpp:32-189 | over every run, however the stream is cut into receives, the results are the stream's verdicts in order |
| LineReader.ChunkIndependence | cpp/src/net/TcpSocket.cpp:32-189 | two runs over the same stream agree as far as both go |
| LineReader.CutIsVerdicts | cpp/src/net/TcpSocket.cpp:32-74 | the verdicts on a stream of lines that fit the buffer are those lines |
| LineReader.CutIsUnique | cpp/src/net/TcpSocket.cpp:32-74 | a stream can be cut behind each `c` in one way only |
| LineReader.RunCompletes | cpp/src/net/TcpSocket.cpp:32-189 | over lines that fit no run fails for memory, and once only an unfinished rest is left every line has been delivered |
| CheckSum.CheckSum.DoIpCheckSum | cpp/src/util/CheckSum.cpp:17-28 | the loop adds the word sum of the bytes, modulo 2^32 |
| CheckSum.SumJoins | cpp/src/util/CheckSum.cpp:17-28 | the sum of a message is that of its parts, when the first has an even length |
| CheckSum.SumOfOdd | cpp/src/util/CheckSum.cpp:17-28 | a byte left over counts as if a zero byte followed on a little-endian host, and 256 times too little on a big-endian one |
| CheckSum.CheckSum.DoValue16 | cpp/src/util/CheckSum.cpp:7-15 | the folding loop ends and returns the complement of `Fold` |
| CheckSum.FoldIsResidue | cpp/src/util/CheckSum.cpp:7-15 | folding gives the number up to 65535 congruent to the sum modulo 65535 that is zero only for zero |
| CheckSum.ValueCancels | cpp/src/util/CheckSum.cpp:7-15 | adding the value of any sum to it gives a sum of value 0, even past 32 bits |
| CheckSum.Verifies | cpp/src/net/IcmpMessage.cpp:165-171 | for a message of any length with a zero aligned checksum word, storing the value makes a recomputation yield 0 |
| CheckSum.ValueOfShortMessage | cpp/src/util/CheckSum.cpp:7-28 | up to 131074 bytes the value is the complement of the word sum modulo 65535 (section 1 of RFC 1071) |
| CheckSum.ValueLosesCarries | cpp/src/util/CheckSum.cpp:7-28 | for longer messages exactly when the number of carries out of 32 bits is a multiple of 65535 |
| CheckSum.OrderIndependentExactly | cpp/src/util/CheckSum.cpp:7-28 | for any even length the stored bytes are the same on hosts of either byte order (section 2(B) of RFC 1071) if and only if the carries lost out of 32 bits are each other's with bytes exchanged, modulo 65535, and both or neither of the 32-bit sums are zero |
| CheckSum.OrderIndependent | cpp/src/util/CheckSum.cpp:7-28 | so they are the same for every even length up to 131074 bytes |
| CheckSum.OrderMatters | cpp/src/util/CheckSum.cpp:7-28 | and differ for 131076 bytes 255 |
| Icmp.RawMessage.UpdateHeader | cpp/src/net/IcmpMessage.cpp:63-80 | header fields at their places, length set, room made, and `_header` names the block of the message |
| Icmp.RawMessage.FillData | cpp/src/net/IcmpMessage.cpp:173-197 | the data are the filler words and bytes, or stay when they are there already; the first 16 bytes stay; the message moves to another block exactly when filler is written up to the end of the buffer |
| Icmp.PayloadIs | cpp/src/net/IcmpMessage.cpp:183-193 | the filler is PINGPONG over and over, as the host stores its words, and an X for each byte left |
| Icmp.RawMessage.DoChecksum | cpp/src/net/IcmpMessage.cpp:165-171 | the value of the message goes to the checksum word of the block `_header` names, and nothing else changes |
| Icmp.RawMessage.Update | cpp/src/net/IcmpMessage.cpp:82-92 | the whole echo request; it carries its checksum if and only if the filler is there already, is empty, or the message does not fill the buffer exactly |
| Icmp.FortyBytesMiss | cpp/src/net/IcmpMessage.cpp:82-92 | forty data bytes in the buffer of a request of 32 bytes fill it exactly, and the zero checksum word is wrong |
| Icmp.MissedChecksum | cpp/src/net/IcmpSocket.cpp:10-18 | the echo socket's own request object, updated so, sends that message |
| Base64.DoEncode | cpp/src/util/Base64.cpp:22-55 | the loop appends `Encode` of the bytes |
| Base64.DoDecode | cpp/src/util/Base64.cpp:65-109 | the loop appends `Decode` of the text to a byte buffer at any cursor, or says that the size to grow to does not fit 32 bits, which happens exactly when the decoded bytes fit neither the buffer nor any size |
| Base64.SymbolValue | cpp/src/util/Base64.cpp:114-137 | decoding undoes encoding on every six-bit number |
| Base64.ValueSymbol | cpp/src/util/Base64.cpp:114-153 | encoding undoes decoding exactly on the alphabet |
| Base64.Alphabet | cpp/src/util/Base64.cpp:114-124 | the symbols are table 1 of RFC 4648 |
| Base64.GroupIsNumber | cpp/src/util/Base64.cpp:22-55 | the four symbols are the digits in base 64 of the number three bytes are in base 256, and of one or two bytes with zero bits behind |
| Base64.DecodeOdd | cpp/src/util/Base64.cpp:82-137 | a character outside of the alphabet counts as '/', and a last group that is cut short is filled up with 'A' |
| Base64.DecodeEncode | cpp/src/util/Base64.cpp:22-109 | every byte sequence comes back |
| Base64.EncodedLength | cpp/src/util/Base64.cpp:22-55 | n bytes take 4*ceil(n/3) characters |
| Base64.EncodeCanonical | cpp/src/util/Base64.cpp:22-55 | encoded text is canonical in the sense of section 4 of RFC 4648 |
| Base64.EncodeDecode | cpp/src/util/Base64.cpp:22-109 | a text comes back from its decoding if and only if it is canonical |
| PercentCoding.DoEncode | cpp/src/net/URI.cpp:345-358 | the loop appends `Encode` of the text |
| PercentCoding.DoDecode | cpp/src/net/URI.cpp:374-390 | the loop appends `Decode` of the text |
| PercentCoding.DoReplace | cpp/src/String.cpp:418-428 | the search loop replaces every occurrence up to the first '\0' |
| PercentCoding.HexPair | cpp/src/String.cpp:1193-1222 | `UnHex` undoes `Hex` on every byte |
| PercentCoding.EncodeOne | cpp/src/net/URI.cpp:345-372 | a letter, a digit, one of "-._~" and what is excluded stay; any other character becomes '%' and the two upper-case hexadecimal digits of its byte |
| PercentCoding.EncodeJoins | cpp/src/net/URI.cpp:345-358 | encoding works character by character |
| PercentCoding.ReplaceIs | cpp/src/String.cpp:418-428 | the replacement changes exactly the characters looked for |
| PercentCoding.DecodeCopies | cpp/src/net/URI.cpp:374-390 | decoding copies what is no '%' |
| PercentCoding.DecodePair | cpp/src/net/URI.cpp:374-390 | it reads '%' and two hexadecimal digits of either case as the byte they denote, and nothing for zero |
| PercentCoding.DecodeOdd | cpp/src/net/URI.cpp:374-390 | it reads any other two characters behind '%' as nothing, and copies a '%' with less behind it |
| PercentCoding.EncodedChars | cpp/src/net/URI.cpp:345-372 | an encoded text holds no '\0' and no reserved character that is not excluded, but for '%' |
| PercentCoding.PercentRoundTrip | cpp/src/net/URI.cpp:345-390 | `Decode` undoes `Encode` on all texts if and only if neither '%' nor '+' is in the exclude list |
| PercentCoding.FormRoundTrip | cpp/src/net/URI.cpp:302-304 | it also does after blanks have been replaced by '+' |
| PercentCoding.QueryLists | cpp/src/net/URI.cpp:90-97 | the two lists used with that replacement qualify |
| UriQuery.Query.GetQueryMap | cpp/src/net/URI.cpp:110-145 | the loop enters the fields as `Parse` says, while the map is empty, or says that a search would leave the text |
| UriQuery.Query.AddQueryField | cpp/src/net/URI.cpp:90-107 | the encoded value is entered for the key |
| UriQuery.Query.AsString | cpp/src/net/URI.cpp:46-88 | the query is rebuilt from the map when the counts differ, and stays otherwise |
| UriQuery.SectionIsPart | cpp/src/String.cpp:659-686 | `section` picks the part of that number |
| UriQuery.ParsesPairs | cpp/src/net/URI.cpp:110-145 | parsing the text of key-value pairs enters them one after the other |
| UriQuery.QueryIsPairs | cpp/src/net/URI.cpp:51-85 | the rebuilt text is the text of all pairs of the map |
| UriTheorems.QueryRoundTrip | cpp/src/net/URI.cpp:51-145 | for a map of keys that are not empty and hold no '&', '=' or '\0', with distinct hashes and with any values, the rebuilt query parses to the map if and only if no single value is empty but possibly the very last one |
| UriTheorems.EmptyValueTakesRest | cpp/src/net/URI.cpp:51-145 | so the map of `a` empty and `b` holding `c` makes `a=&b=c`, which parses to `&b=c` for `a` |
| UriQuery.StoredValue | cpp/src/net/URI.cpp:90-97 | what is stored for any value holds no '&', no '=' and no '\0', is empty exactly for the empty value, and decodes to the value given |
| UriTheorems.AddedFieldShows | cpp/src/net/URI.cpp:46-107 | a field with such a key, added to the parsed map of any query with such keys, is in what the text of the URI parses to if and only if the number of keys is then not the number of sections of the query and no value of the new map is empty but possibly the very last one |
| UriTheorems.AddAndReadBack | cpp/src/net/URI.cpp:46-145 | the same on the objects: a field is added to a URI, its text taken, and parsed again by another |
| UriQuery.FirstFieldIsLost | cpp/src/net/URI.cpp:46-107 | so the first field of a URI without a query does not show |
| UriQuery.ParseUndefinedExactly | cpp/src/net/URI.cpp:110-145 | the parser searches behind the text if and only if the last section has an '=' and some section has none |
| UriQuery.KeylessFieldLeaves | cpp/src/net/URI.cpp:110-145 | as on `a&b=c` |
| UriQuery.ParsedDistinct | cpp/src/net/URI.cpp:110-145 | no two keys of a parsed map share a hash |
| Escape.DoEscape | cpp/src/String.cpp:1389-1441 | the loop computes `Escape` |
| Escape.DoUnescape | cpp/src/String.cpp:1443-1532 | the loop computes `Unescape`, octal and short hexadecimal escapes included |
| Escape.EscapeOne | cpp/src/String.cpp:1389-1441 | what becomes of each single character: the escapes of C, codes outside of 32 to 127 as two hexadecimal digits, the rest as it is |
| Escape.EscapeJoins | cpp/src/String.cpp:1389-1441 | escaping works character by character |
| Escape.UnescapeCopies | cpp/src/String.cpp:1443-1532 | unescaping copies what is no backslash |
| Escape.UnescapeLetter | cpp/src/String.cpp:1456-1487 | it reads the letters of C and takes any other character as itself; a backslash at the end is dropped |
| Escape.UnescapeOctal | cpp/src/String.cpp:1502-1520 | it reads the longest run of up to three octal digits, and keeps the low byte |
| Escape.UnescapeHex | cpp/src/String.cpp:1488-1501 | it reads one or two hexadecimal digits of either case; an 'x' without one is itself |
| Escape.CharBack | cpp/src/String.cpp:1389-1532 | an escaped character stands for itself whatever follows |
| Escape.UnescapeEscape | cpp/src/String.cpp:1389-1532 | every byte text comes back without its '\0' characters |
| Escape.RoundTrip | cpp/src/String.cpp:1389-1532 | it comes back as it was if and only if it has no '\0' |
| Escape.EscapedIsPrintable | cpp/src/String.cpp:1389-1441 | escaped text holds codes 32 to 127 only |

Where code and documentation disagree the model follows the code: `Base64::decode` reads characters outside the
alphabet although its comment says that they are ignored; `operator<<` of JSON writes `\u` with six or eight
hexadecimal digits where section 7 of RFC 8259 asks for four; `readUntil` with a positive time subtracts the time since
the start at every turn.

## Left out

- Random.Generator.RandomIntUpTo: the source draws until a value is accepted; `tries` bounds the draws, and None says that every one of them was too large.
- LineReader.TcpSocket.ReadUntil: with a positive time a socket on which nothing more ever arrives is not readable in time.
- Mutex.RunSafe: Mutex.cpp, ThreadPool.cpp, HttpServer.cpp and Semaphore.cpp are step systems over values, since what is proved is about all interleavings; `tryLock` with a time limit repeats `tryLock` and is not a step of its own.
- Icmp.RawMessage.Update: data sizes that make the message longer than 65535 bytes; a growing buffer always moves to another block, where `realloc` may also extend it in place.
- UriTheorems.QueryRoundTrip: keys that are empty or hold '&', '=' or '\0', which `addQueryField` leaves as they are (cpp/src/net/URI.cpp:94).
- UriTheorems.AddedFieldShows: the same keys, and queries that parse to one.
- JSON numbers: where a number starts the model's parser stops with an outcome of its own.
- RPC double, dateTime and base64 leaves: read as text, with no round trip; the text of a double is floating point.
- XML attributes as a list, files read in chunks, `getPreviousElement`: the reader does not use them.
- The binary tree inside `Dictionary`: entries are a sequence in insertion order, told apart by the hash of the key.
- `waitAll` and more than one dispatcher of a pool: the invariants do not hold for them.
- Pausing and resuming of `Thread`: a worker takes its task in one step.
- `Date::addToMonth`, `addToYear`, sums and differences of dates, `dayOfWeek` and its numbering, `isValid`: not about the two formulas.
- `Date`, `Time` and `DateTime` taken from the clock: floating-point seconds and system calls.
- The generator seeded from the time, and `random()` on doubles.
- `ByteBuffer::find` of a string, `read` and `readAll`: they are not used by line reading.
- `Base64::decode` to a `String`: it is the byte form cut at the first zero byte.
- Splitting a URI into scheme, authority, path and fragment.
- 64-bit `Val`, `strtol` errors, locale-dependent character classes.
- Windows branches, sockets, files, processes, services, logging, consoles and JNI: operating-system plumbing.
