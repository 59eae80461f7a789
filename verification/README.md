# Verified model of the FAST dissector

This project models a dissector for FAST 1.1 (FIX Adapted for STreaming) and the small client that
encodes messages for it, and proves that they do what the protocol is for: whatever a sender may
legally put on the wire is shown to the user as it was meant, and where the code falls short of that, on
exactly which messages.

Verify everything with `dafny verify dfyconfig.toml`.

## What is modelled

* **Stop-bit coding** (`Bits`, `StopBit`, `Decode`, `PresenceMap`, `Encode`): the decoders' shift-and-or loops,
  the range checks on masked bits, and the encoders that fill a buffer backwards. A C shift is a
  multiplication followed by the reduction to the word; `|` and `&` are defined bit by bit.
* **Templates** (`Fields`, `Parser`, `Template`, `Flags`): the tree the parser builds from abstract XML, which
  lists the same fields at the same depths; and the walk that decides which groups carry a presence map of their
  own, which are those whose members can use one.
* **Dictionaries** (`Dictionary`, `Scopes`): lazily created nested tables that stand for one flat map per
  conversation, which fields share a value in it, and that templates which share none do not disturb each other.
* **The dissector** (`Reader`, `Dissection`, `Dissector`): positions, field data and dictionaries are
  objects changed in place; each method is proved to compute the function of `Dissection` it is named
  after. `Structure` proves what holds of the result for any bytes whatever.
* **Messages, packets, runs** (`Packet`, `Runs`): the remembered template id, the message loop, the
  exchanges' headers and resets, and runs of packets from several conversations.
* **The sender** (`Sender`): a reference written from the meaning of the operators. It says which messages are
  legal, what they put on the wire, and what a receiver must see. Presence maps take any length that holds
  their bits, with all, some or none of the trailing zeros (FAST 1.1, section 10.5). The sender keeps to messages
  the dissector hears right, and to its habit of storing every field; what is shut out or bent that way is
  named below, by an exact condition, or under "Left out". `FieldDecoding`,
  `MessageDecoding`, `TreeDecoding` and `PacketDecoding` prove that the dissector inverts it, from single
  fields up to whole runs; `Client` and `Operators` draw the consequences for the client's messages and
  for runs of values under each operator, and `Trimming` for what a cut-off presence map changes.
* **Text** (`Decimals`, `DecimalPrinting`, `InitialValues`, `Display`, `Readout`): the decimal parser that trims
  its text in place, the printer, hexadecimal, the lockstep walk of the display, and what its lines tell.

The central result is `TreeDecoding.ValueDecodes`, by induction over templates; `PacketDecoding.RunDecodes`
carries it to runs of packets, `Client.EndToEnd` to the client's output and `Readout.MessageReads` to the screen.

## Where code and protocol differ

The model follows the code. Where that departs from the protocol, a lemma says exactly when:

* A string or vector delta is cut from the stored value. An initial value is ignored, and the shift that makes
  room for null in an optional delta's subtraction length is never undone, so a length that is not negative
  cuts one byte too many (`Operators.StringCutExact`, `Operators.VectorCutExact`).
* The optional delta of a decimal is off by one when its mantissa grows (`Operators.OptionalDecimalDelta`).
* An optional default without initial value, left out, shows zero instead of being absent, and a string or vector
  is then copied from a null pointer (`Operators.OmittedDefault`); so is a constant or mandatory default string
  without a value, which the parser only reports (`Structure.TameIsSafe`). Template 31 of test/templates.xml is
  such a template.
* An omitted copy with nothing to copy is read from the stream all the same when it is mandatory, and undefined
  when it is optional (`Operators.OmittedCopy`, `Operators.CopyExact`).
* An omitted increment with nothing stored is one too high (`Operators.IncrementExact`).
* Fields without operator and defaults are stored in the dictionary, and a copied initial value is not
  (`Operators.StoredAnyway`, `Operators.CopyStoresNothing`).
* A delta on a slot of another type keeps its error D4 only on integers (`Operators.DeltaOtherType`).
* A vector whose length is left out is taken for absent when it is optional and the next byte is 0x80
  (`Operators.UnsizedExact`), and so is a decimal under an operator whose exponent is left out or a constant
  (`Operators.PartsExact`).
* The largest value of a type cannot be sent in an optional field (`Operators.NullableRoundTrip`).
* A sequence is dropped when no presence bit is left, even if its elements need none (`Operators.SequenceDropped`).
  So a presence map without its trailing zeros, which stands for the same bits, can lose elements: it does
  exactly when one is reached with the shorter map used up (`Trimming.TrimExact`, `Trimming.MessageTrim`).
* An optional constant that is a first child uses its bit twice (`Structure.SequenceConsumesLengthBit`,
  `Structure.DecimalConsumesPartsBits`). A decimal under increment, which parse-template.c:433 leaves in place
  though it is refused, is counted by the static test but never shifts its bit, and no tail that is there does
  (`Structure.DecimalConsumesItsBits`, `Structure.LeafConsumesItsBit`). These, and the bits of parts that are never
  read, are the only ones the walk over the template counts in vain (`Flags.FlagExact`).
* A mandatory delta against an empty value leaves its difference unread (`Operators.DeltaFails`).
* Exponent zero prints as 1, and long mantissas overrun the printer's buffers (`DecimalPrinting.CanonicalRoundTrip`).
* The template id that is remembered between messages is one static variable for all conversations
  (`Runs.StaleIdMatters`).

## Model

| member | source | states |
|---|---|---|
| Decode.CountStopBitEncoded | decode.c:38-49 | The loop finds the length of the first stop-bit string, 0 when no stop bit is left |
| StopBit.CountStopFinds | decode.c:38-49 | The bytes counted form a stop-bit string (stop bit on the last byte only), and none is counted exactly when no byte carries one |
| StopBit.CountStopDelimits | decode.c:38-49 | A stop-bit string followed by anything is counted to its own end: the coding is self-delimiting |
| Decode.DecodeUnsigned | decode.c:69-97 | The shift-and-or loop computes the number the 7-bit groups denote, modulo the word, for any number of groups |
| Decode.DecodeSigned | decode.c:99-133 | Decoding and sign extension give the signed number the groups denote, wrapped into the word, for any number of groups |
| Decode.UnsignedAcceptance | basic-dissect.c:153-186 | The test on length and masked bits of the first byte refuses exactly the strings that are too long or whose number does not fit |
| Decode.SignedAcceptance | basic-dissect.c:189-235 | The same for the signed test, which compares the extra bits with the sign bit |
| Encode.UnsignedRoundTrip | util/client/encode.c:59-75 | Encoding gives a stop-bit string that denotes the number again |
| Encode.SignedRoundTrip | util/client/encode.c:77-95 | The same for signed numbers and their sign-extended value |
| Encode.UnsignedShortest | util/client/encode.c:59-75 | No stop-bit string with the same unsigned value is shorter than the encoding |
| Encode.SignedShortest | util/client/encode.c:77-95 | No stop-bit string with the same signed value is shorter than the encoding |
| Encode.UnsignedLength | util/client/encode.c:59-75 | An unsigned encoding has at most n groups exactly for numbers below 128^n |
| Encode.SignedLength | util/client/encode.c:77-95 | A signed encoding has at most n groups exactly for numbers of 7n-bit two's complement |
| PresenceMap.DecodePmap | decode.c:56-67 | The nested loops unpack seven bits of every byte, most significant first, into the array |
| PresenceMap.PmapRoundTrip | util/client/encode.c:20-47 | Decoding an encoded presence map gives the bits, zero-padded to the next positive multiple of seven; the encoding is self-delimiting |
| TreeDecoding.ZeroExtension | basic-dissect.c:79-91 | Shifting a presence map bit by bit yields what was sent, on however many bytes, and then zeros for ever |
| PresenceMap.MapStands | basic-dissect.c:79-105 | A map cut off or filled up to so many bytes stands for the same bits, zeros for ever after, exactly when only zeros were cut off |
| PresenceMap.PlainMap | util/client/encode.c:20-47 | What the client encodes is the map on just enough bytes for all its bits |
| Encode.EncodePmapInto | util/client/encode.c:20-47 | The loop with a moving mask appends exactly the encoded presence map |
| Encode.EncodeUint64 | util/client/encode.c:59-75 | Filling the buffer backwards appends the encoding, and the index stays inside the nine slots exactly below 2^63 |
| Encode.EncodeInt64 | util/client/encode.c:77-95 | The same for signed numbers, exactly from -2^62 up to 2^62 |
| Encode.EncodeUint32 | util/client/encode.c:49-52 | Every 32-bit number is encoded |
| Encode.EncodeInt32 | util/client/encode.c:54-57 | Every signed 32-bit number is encoded |
| Encode.EncodeAscii | util/client/encode.c:97-112 | Any string but the empty one is appended with its last character marked; the empty string is refused |
| Encode.AsciiDelimited | util/client/encode.c:97-112 | What was appended is one stop-bit string exactly when no character before the last is marked already |
| Encode.EncodeHex | util/client/encode.c:121-152 | The loop with a shift counter appends the hexadecimal digits in pairs, skipping other characters and padding an odd digit |
| Encode.EncodeBytevec | util/client/encode.c:114-119 | A length of half the characters, rounded up, then the bytes |
| Encode.HexRoundTrip | packet-fast.c:794-805 | Encoding the text a byte vector is displayed as gives the vector back, with nothing skipped or padded |
| Encode.CaseIgnored | util/client/encode.c:121-152 | Capital and small letters encode as the same digits |
| Encode.HexTyped | packet-fast.c:794-805 | What was typed in lower-case hexadecimal is what is displayed for the bytes it stands for |
| Template.FixupWalkTemplate | template.c:126-151 | The sibling walk with a flag threaded through non-groups flags exactly the groups whose members use presence-map bits, and changes nothing else |
| Flags.WalkExact | template.c:126-151 | Siblings are found to use presence bits exactly when some of them, walked from some place, do use one - on some bytes, map and dictionary - or have one that is counted in vain: a mandatory tail, an increment left on a decimal, or parts that the operator never reads |
| Flags.FlagExact | template.c:141-146 | So a group is flagged exactly when its members can use a bit of the map around them; what is inside a nested group never counts outside it |
| Flags.OvercountedStill | template.c:103-119 | The bits that are counted in vain are used by no bytes, map or dictionary |
| Template.CreateTemplatesTable | template.c:32-46 | Under every id the table holds the last template with that id, flagged |
| Template.FixedWellFormed | template.c:126-151 | Flagging keeps the shape the parser built |
| Template.TableReady | template.c:32-46 | Everything that can be looked up is well formed and rightly flagged |
| Dictionary.GetIsTyped | dictionaries.c:237-285 | A value is found exactly in a slot of the field's own type; a slot of another type gives error D4 and no value |
| Dictionary.SetThenGet | dictionaries.c:287-325 | A get sees the last set of its own slot (value, empty, or D4 for another type) and no set of another slot |
| Scopes.SlotExact | dictionaries.c:111-141 | Two fields share a value exactly when their keys are equal and both are kept in their template's dictionary and it is the same template, or both in the same other dictionary |
| Scopes.ValueKept | dissect.c:346-413 | Whatever the bytes, a field reads and writes only slots of the fields of its own template node: on dictionaries that agree there it shows the same, and all other slots stay as they were |
| Scopes.TemplatesApart | dissect.c:251-293 | In any run of messages, those of some templates show what they show in the run without the others, when no slot is shared |
| Scopes.TemplateDictionaries | dictionaries.c:117-126 | With every field in its template's own dictionary, messages of other templates in between change nothing in what those of one template show |
| Dictionary.Dictionaries.GetConversationTable | dictionaries.c:150-180 | Lazily creating a conversation's tables changes no dictionary of any conversation |
| Dictionary.Dictionaries.GetDictionary | dictionaries.c:111-141 | Lazily creating a dictionary changes none; the result is the field's dictionary |
| Dictionary.Dictionaries.GetDictionaryValue | dictionaries.c:237-285 | The nested tables answer as one flat map per conversation does |
| Dictionary.Dictionaries.SetDictionaryValue | dictionaries.c:287-325 | Only the field's slot of its own conversation changes |
| Dictionary.Dictionaries.ClearDictionaries | dictionaries.c:195-226 | The conversation's flat map becomes empty, the tables stay allocated, no other conversation changes |
| Reader.DissectPosition.ShiftBytes | basic-dissect.c:72-76 | The cursor moves by the jump and the bytes left shrink by as much |
| Reader.DissectPosition.DissectShiftPmap | basic-dissect.c:79-91 | The next presence bit, false beyond the end, and only then no advance |
| Reader.DissectPosition.DissectPeekPmap | basic-dissect.c:93-105 | The same bit without advancing |
| Reader.DissectPosition.DissectShiftNull | basic-dissect.c:107-123 | Consumes the null byte when it is next, and nothing else |
| Reader.BasicDissectPmap | basic-dissect.c:126-150 | A presence map is read into a position that may be the one it is read from; without a stop bit it stays empty |
| Reader.BasicDissectUint | basic-dissect.c:153-186 | Consumes one stop-bit string; error D2 exactly when it is too long or its number too large; the value otherwise is that number |
| Reader.BasicDissectInt | basic-dissect.c:189-235 | The same for signed integers |
| Reader.BasicDissectAsciiString | basic-dissect.c:238-254 | Consumes one stop-bit string and gives its data bits up to the first NUL |
| Dissector.DissectIntOp | dissect.c:67-142 | Delta, increment and the plain case of an integer field, with errors D5 and D6, as the specification function says |
| Dissector.DissectInteger | dissect.c:531-614 | The four integer dissectors: operator, reading, null shift, wrap-around and storing |
| Dissector.DissectAsciiDelta | dissect.c:152-249 | The string delta with its three D7 exits |
| Dissector.DissectAsciiString | dissect.c:659-687 | The string dissector for every operator, tail going the way of delta |
| Dissector.DissectByteVector | dissect.c:690-843 | Byte vectors and unicode strings for every operator |
| Dissector.DissectDecimal | dissect.c:617-656 | Exponent and mantissa by their own operators, or one delta of both |
| Dissector.DissectCopy | dissect.c:481-511 | Whether an omitted copy settles the field, and with what |
| Dissector.CopyTemplateValue | basic-field.c:60-80 | An initial value is copied, except that of a string or vector that has none |
| Dissector.DissectDefault | dissect.c:514-528 | Whether the default settles the field and what is then stored; a string or vector without a value is copied from a null pointer exactly when its bit is clear, and that is refused |
| Dissector.DissectOptional | dissect.c:416-478 | The peek, the null test, the store and the shift that decide presence |
| Dissector.DissectGroup | dissect.c:846-867 | A group on a stacked position when it has its own presence map |
| Dissector.DissectSequence | dissect.c:870-901 | Length, then elements while bytes and presence bits last |
| Dissector.DissectorWalk | dissect.c:296-304 | The sibling loop |
| Dissector.DissectDescend | dissect.c:307-343 | One new data node for each template node |
| Dissector.DissectValue | dissect.c:346-413 | The whole recursive interpreter computes the specification function, refuses exactly where the C code reads memory it does not own or has not written, and touches only its own conversation |
| Structure.ValueStructure | dissect.c:346-413 | For any bytes: the data tree has the template's shape, and the windows of siblings are adjacent and fill the end of their parent's |
| Structure.WalkStructure | dissect.c:296-304 | For any bytes: one data node per sibling, in order, windows adjacent from the start to the final offset |
| Structure.ElementsStructure | dissect.c:870-901 | For any bytes: at most as many element nodes as announced, all of the group's shape |
| Structure.NoBitsWalk | template.c:126-151 | Siblings the static test finds no bits for never advance the enclosing presence-map index, whatever the bytes and however they nest |
| Structure.GroupKeepsPmap | dissect.c:846-867 | Whatever is dissected inside a group, the enclosing presence map is unchanged, and so is its index, whether the group has its own map or needs none |
| Structure.LeafConsumesItsBit | template.c:103-119 | With a bit left, an integer or string consumes exactly the bits the static test announces on every path - null, omitted, present - but a tail that is there, which consumes none |
| Structure.OperatorConsumesItsBit | dissect.c:346-413 | The same for the operator of any field short of groups and sequences, up to where its body is read: the announced bit, save for an increment, left to the integer dissectors, and a tail |
| Structure.GroupConsumesItsBit | template.c:103-106 | With a bit left, a group consumes one bit if it is optional and none otherwise |
| Structure.SecondLook | dissect.c:416-478 | A child that is looked at twice is found both times with nothing used up by the first look, exactly when it is not a constant |
| Structure.SequenceConsumesLengthBit | dissect.c:870-901 | A sequence consumes exactly its length's bit, and two when it is optional and its length a constant that is there |
| Structure.DecimalConsumesPartsBits | dissect.c:617-656 | A decimal without operator consumes its exponent's bit and, when it is there, its mantissa's; a constant optional exponent counts twice |
| Structure.DecimalConsumesItsBits | dissect.c:617-656 | A decimal under an operator: its own bit, and its parts' bits when they are read; one that is there uses its own bit exactly when the operator is neither increment, which the parser leaves in place, nor tail |
| Structure.VectorConsumesItsBits | dissect.c:697-843 | A vector: its own bit, and its length's bit when it is read |
| Structure.TameIsSafe | dissect.c:346-413 | Templates without vectors, without deltas on strings and decimals, and without string constants and defaults that lack a value, are dissected within the packet and without unset memory on any bytes, maps and dictionaries |
| Structure.VectorFits | dissect.c:822-841 | A vector read plainly stays within the packet exactly when its declared length is at most the bytes remaining |
| FieldDecoding.FieldDecodes | dissect.c:531-614 | Every integer or string field that may be sent, under any operator and in either form and on any presence map that holds its bits, is received as meant, consuming exactly what was sent, and both dictionaries stay equal |
| FieldDecoding.NullIsZero | dissect.c:416-478 | Only zero encodes as the null byte, so a shifted value is never mistaken for null |
| MessageDecoding.StringCutDecodes | dissect.c:152-249 | A legal cut, mandatory or optional, is received as the string it stands for, which both sides store |
| MessageDecoding.StringCutHeard | dissect.c:152-249 | What any string delta gives, legal or not: the spliced string or error D7, and the input alone when no value is stored |
| MessageDecoding.VectorDecodes | dissect.c:697-843 | Byte vectors and unicode strings that may be sent are received as meant: plain or cut, with a length under its own operator or left out, omitted or null |
| MessageDecoding.DecimalDecodes | dissect.c:617-656 | The same for decimals: parts with their own operators, an operator of the whole, deltas, absent ones |
| TreeDecoding.ValueDecodes | dissect.c:346-413 | For every template node, nested in any way, and presence maps with or without trailing zeros: whatever may be sent is received as it was meant, exactly its bytes and presence bits are consumed, and sender's and receiver's dictionaries agree |
| TreeDecoding.GroupDecodes | dissect.c:846-867 | Groups, absent or there, with or without a presence map of their own, on as many bytes as the sender likes |
| TreeDecoding.SequenceDecodes | dissect.c:870-901 | Sequences, absent or there, with every element sent |
| TreeDecoding.UpToDecodes | dissect.c:296-304 | The first i fields of a template, with what each leaves for the next |
| Trimming.ShorterMap | basic-dissect.c:126-150 | Of two maps of the same bits, the one on fewer bytes is read as the longer one with only zeros cut off |
| Trimming.TrimExact | dissect.c:870-901 | With trailing zeros cut off the presence map, a field of any template on any bytes is dissected the same - value, dictionary, data nodes, place - unless a sequence on that map has elements to read when the shorter map is used up; then its data nodes differ |
| Trimming.WalkTrim | dissect.c:296-304 | The same for siblings |
| Trimming.MessageTrim | dissect.c:251-293 | A message leaves and shows the same with trailing zeros cut off its map exactly when no sequence of its template is starved by it |
| Trimming.SequencelessThrives | basic-dissect.c:79-105 | A field with no sequence on the enclosing map is never starved: its map may be cut anywhere in its trailing zeros |
| Packet.DissectMessage | dissect.c:251-293 | Every message that is read consumes at least one byte and keeps offset plus remaining bytes constant, so the packet loop ends |
| Packet.FastDissector.DissectFastBytes | dissect.c:251-293 | Presence map, template id or the remembered one, lookup, walk, and the head node's window |
| Packet.FastDissector.DissectMessages | packet-fast.c:531-585 | The message loop, ended by an unknown template, which is reported as error D9 |
| Packet.FastDissector.DissectFast | packet-fast.c:496-599 | A packet: the flavor's header skipped, its messages, and the dictionaries reset for the exchanges' flavors; refused when it is shorter than the header |
| Runs.HeaderSkipped | packet-fast.c:496-513 | Reading starts behind five bytes, ten or four, by flavor |
| Runs.UnknownReported | packet-fast.c:531-585 | A message without a template ends its packet, and is kept as one field in error D9 under the id that was read |
| Runs.StaleIdMatters | dissect.c:251-293 | Which template id an earlier packet left behind changes what is shown exactly when the packet's first message does not carry its own |
| Runs.NonInterference | dictionaries.c:111-180 | In any interleaving, a conversation's trees are those of its packets alone, whatever id was remembered, provided its packets open with an id |
| Runs.ResetIndependence | packet-fast.c:587-596 | With dictionaries cleared after every packet, what is shown for the n-th packet depends on its own bytes only |
| Runs.DissectAll | packet-fast.c:496-599 | Any run of packets through the imperative dissector gives the trees of the run function |
| PacketDecoding.MessageDecodes | dissect.c:251-293 | A message sent with or without its id, on a presence map with or without trailing zeros, followed by anything, is received as meant and leaves exactly what followed |
| PacketDecoding.MessagesDecode | packet-fast.c:531-585 | A packet of messages is received message by message, with id and dictionary carried along |
| PacketDecoding.RunDecodes | packet-fast.c:496-599 | Any run of packets from any mix of conversations and flavors is received as it was sent |
| Client.FastMessage.Add | util/client/client.c:149-190 | An argument is appended in its encoding exactly when its encoder can hold it |
| Client.FastMessage.EncodeFast | util/client/client.c:23-42 | The message is presence map, template id if asked for, body |
| Client.BuildMessage | util/client/client.c:103-213 | A run of the client succeeds exactly when every argument can be encoded, and gives their message |
| Client.EndToEnd | util/client/client.c:23-42 | What was given to the client, followed by anything, is dissected to the sent template id and exactly those values in order, leaving exactly what followed |
| Client.Loopback | dissect.c:251-293 | The same through both programs, the client's buffer and the dissector's position |
| Operators.OperatorRun | dissect.c:67-142 | Repeats left out under copy, successors under increment, differences under delta: any run of 32-bit values arrives unchanged through the dictionary |
| Operators.DeltaModulo | dissect.c:531-614 | A difference is only needed modulo the word |
| Operators.NullRoundTrip | dissect.c:416-478 | Null is received as absent |
| Operators.NullableRoundTrip | dissect.c:531-614 | An optional integer survives the shift that makes room for null exactly when it is not its type's largest |
| Operators.SpliceExact | dissect.c:152-249 | A delta stands for a string exactly when it is the tail cut of a common prefix or the front cut of a common suffix; it stands for none exactly when it cuts more than there is |
| Operators.StringRun | dissect.c:659-687 | A run of strings, each cut from the one before at any common prefix or suffix and the first from the whole initial value, arrives unchanged |
| Operators.StringDeltaExact | dissect.c:152-249 | For any stop-bit string as subtraction length, mandatory or optional: error D7 exactly when it is longer than five bytes, no 32-bit number, or cuts more than is stored; the spliced string otherwise; the input while nothing is stored; and both strings consumed in every case |
| Operators.IntegerReadExact | dissect.c:531-614 | On any bytes: a field that is read consumes the next stop-bit string and shows its number, one less where an optional field makes room for null; error D2 exactly when the string is too long or the number does not fit the type |
| Operators.StringReadExact | basic-dissect.c:238-254 | On any bytes: a string that is read consumes the next stop-bit string and shows its data bits up to the first NUL, never an error |
| Operators.TailIsDelta | dissect.c:659-687 | A tail that must be there is taken for a delta, for strings and vectors alike |
| Operators.StringCutExact | dissect.c:152-249 | A string delta is received as the string it stands for exactly when, with nothing stored, its input is the whole string, and otherwise when it is mandatory or cuts from the front: an initial value is ignored, and the shift of an optional length never undone |
| Operators.VectorCutExact | dissect.c:697-843 | The same for byte vectors and unicode strings |
| Operators.UnsizedExact | dissect.c:416-478 | A vector whose length is left out is received as sent exactly when it is mandatory or the next byte, of its data or of what follows, is not 0x80 |
| Operators.PartsExact | dissect.c:416-478 | A decimal under an operator of the whole, its parts in any form, is received as sent exactly when it is mandatory or the first byte after its bit is not 0x80 |
| Operators.DeltaOtherType | dictionaries.c:237-285 | A delta on a slot of another type: the error D4 stays exactly on an integer; a string or vector is its input alone, and a decimal is computed from unset memory |
| Operators.OptionalDecimalDelta | dissect.c:617-656 | An optional decimal delta is received as sent exactly when the mantissa does not grow; otherwise it is off by one |
| Operators.SequenceDropped | dissect.c:870-901 | Elements are shown exactly when some are announced and neither the packet nor the presence map is used up |
| Operators.OmittedDefault | dissect.c:514-528 | An optional default that is left out is received as it is meant - its initial value, else absent - exactly when it has an initial value; without one, strings and vectors are copied from a null pointer and the others show zero |
| Operators.OmittedCopy | dissect.c:481-511 | All cases of an omitted copy: whether it settles the field, and when it gives D4, D5, D6, undefined, empty, or the stored or initial value |
| Operators.CopyExact | dissect.c:481-511 | An omitted copy is received as what it repeats, or as absent, exactly when there is a stored or initial value; an optional one with neither is left undefined |
| Operators.IncrementExact | dissect.c:112-134 | An omitted increment is received as the stored value's successor exactly when something is stored; with nothing stored it gives the initial value's successor instead of the initial value |
| Operators.IncrementFails | dissect.c:112-134 | A mandatory increment left out: error D5 exactly while nothing is stored and there is no initial value, D6 exactly on an empty value, D4 exactly on a slot of another type, a value otherwise; nothing is consumed |
| Operators.DeltaFails | dissect.c:80-108 | A mandatory integer delta gives error D6 exactly against an empty value, and then leaves its difference unread |
| Operators.StoredAnyway | dictionaries.c:287-325 | Fields without operator and defaults are stored: a later copy is still heard as what it would have repeated before exactly when it has another slot or repeats that very value, and repeats the stored one when slot and type are shared |
| Operators.CopyStoresNothing | dissect.c:481-511 | After an omitted copy its slot holds the value it was received as exactly when something was stored before; a repeated initial value is forgotten |
| Decimals.StringToDecimalValue | basic-field.c:196-257 | The scan, the move over the point and the unsigned index arithmetic compute the parse function, and refuse exactly text with other characters or two points |
| Decimals.ParseExact | basic-field.c:196-257 | For every signed digit string with at most one point, mantissa and exponent denote the text's value exactly when the trimmed digits fit 64 bits, and are then canonical |
| DecimalPrinting.ToDecimal | packet-fast.c:977-1043 | The printer's loops stay inside its buffers, and it negates the mantissa safely, exactly when the text fits, a range of mantissas for each exponent; it then produces the text |
| DecimalPrinting.PrintThenParse | packet-fast.c:977-1043 | For every decimal whose text fits: there is a text exactly for exponents from -10 to 10, and parsing it gives the same number in canonical form unless the exponent is zero |
| DecimalPrinting.CanonicalUnique | basic-field.c:196-257 | A number has one canonical form |
| DecimalPrinting.CanonicalRoundTrip | packet-fast.c:977-1043 | A canonical decimal is printed and read back as itself exactly when its exponent is small, its text fits the buffers, and its exponent is not zero or it is 1: exponent zero always prints 1 |
| InitialValues.StringToByteVector | basic-field.c:167-187 | Hexadecimal pairs become bytes; refused exactly when a paired character is no digit; a last odd character is ignored |
| InitialValues.PairsIgnoreCase | basic-field.c:167-187 | Capital and small letters read as the same bytes |
| InitialValues.HexTextReads | packet-fast.c:794-805 | Reading the text a byte vector is displayed as gives the vector |
| Display.HexString | packet-fast.c:794-805 | The loop prints two digits for each byte |
| Display.DisplayFields | packet-fast.c:686-906 | The lockstep walk of template and data nodes never runs out of data nodes and adds exactly the lines of the tree; it fails exactly where a decimal's text leaves the printer's buffers, or where a failed decimal's exponent has overwritten the pointer of the message to print |
| Display.PacketDisplayable | packet-fast.c:686-906 | Every tree kept for a packet, whatever its bytes, fits its template |
| Display.MessageDisplayable | dissect.c:251-293 | A message's tree fits its template, its windows are nested and adjacent, and its own window ends at the final offset |
| Display.NodeLinesInside | packet-fast.c:686-906 | Every line below a node highlights a part of what the node's own line highlights |
| Readout.NodeReads | packet-fast.c:686-906 | One line for each node that is there or in error, and for each absent one exactly on request, in template order: at the node's depth, on its bytes, with a text from which its value reads back - digits, characters up to a NUL, hexadecimal, a decimal the parser finds again unless its exponent is zero |
| Readout.DisplayDetermines | packet-fast.c:686-906 | With absent fields shown, messages that are displayed alike hold the same fields, statuses and values, up to what follows a NUL and decimals with exponent zero |
| Readout.MessageReads | dissect.c:251-293 | A message that may be sent, followed by anything, is displayed as exactly the fields and values that were sent, whenever the printer can print it |
| Parser.TemplateParser.ParseFieldOperator | parse-template.c:497-511 | The first child that is not ignored sets operator and initial value, and is refused exactly when it is no operator or none permitted for the type; with no such child nothing changes |
| Parser.TemplateParser.PrependLength | parse-template.c:336-380 | A length field with the parent's presence and always a key: its own or a name its elements gave, else one made from the parent's name; the rest is as the length elements say |
| Parser.TemplateParser.ParseDecimal | parse-template.c:388-462 | The decimal's operator, exponent and mantissa as their elements say; only the exponent takes the decimal's presence |
| Parser.DecimalKeys | parse-template.c:388-462 | With a key, a decimal's parts have one; a mantissa without element is mandatory whatever the decimal is |
| Parser.TemplateParser.NewParsedField | parse-template.c:217-327 | An element makes a field exactly when its parts parse; the tree then lists, in document order and at the same depths, the fields its elements declare - name, type, operator, initial value, presence, id, template, key, and the dictionary of the nearest element that gives one - and is well formed and unflagged |
| Parser.TemplateParser.ParserWalkChildren | parse-template.c:195-209 | One well-formed tree for each element that makes one, together listing all that the elements declare, in document order and at every depth |
| Parser.TemplateParser.ParseSequence | parse-template.c:472-490 | The length's field first, then the members below a group that no element names |
| Parser.ListingDetermines | parse-template.c:195-209 | Two lists of trees have the same listing exactly when they are the same fields, one below the other in the same way |
| Parser.LengthDeclared | parse-template.c:336-380 | What a length element says is what the length field has, with the parent's presence and, lacking a key and a name, a key made from the parent's name |
| Parser.PartsDeclared | parse-template.c:388-462 | The same for an exponent and a mantissa element, keys made from the decimal's; only the exponent takes its presence |
| Parser.OperatorDeclared | parse-template.c:433-437 | A decimal's operator and initial value are those of the one child that is neither ignored nor a part |
| Parser.LoadTemplates | template.c:32-46 | From XML to table: under every id what the last template element with that id declares, in order and at every depth, well formed and rightly flagged |

## Left out

- Memory the C code does not own or has not written: where it reads such memory (a vector longer than the packet, a string delta on an empty previous value, a decimal delta without a usable one, an out-of-range byte-vector delta, a string constant or default without a value, a packet without presence map or shorter than the exchange's header, decimal text beyond the printer's buffers, an error message whose pointer a decimal's exponent has overwritten), the functions return Faulty, the methods ok = false, and nothing more is claimed. Signed arithmetic that overflows wraps around, as with the usual compilers.
- Sender.Legal: excludes the tail operator, which the code sends the way of delta without shifting its bit, and the short forms, cuts and cut-off maps that the lemmas named under "Where code and protocol differ" show to be misheard.
- Decode.DecodeUnsigned: takes the bytes of one stop-bit string, as every caller passes; on a stop bit before the last byte the C loop ors it into the number.
- Decode.DecodeSigned: the same.
- Reader.DissectPosition.ShiftBytes: takes a jump within the bytes left, as every caller but the vectors' makes it; what is left is not negative then.
- Unions: a field value is a record of its members, laid out as on a 64-bit machine: an integer or mantissa shares storage with a length, and the pointer of an error message with a sized value's bytes and with a decimal's exponent. The message's text is left out, and the value of a failed field is what the reader left there.
- Uninitialised locals and nodes: their status is taken not to be an error code, and the head node of a message without an id to hold zero.
- Integer widths: offsets, lengths and presence-map indices are unbounded; field values, deltas and the decimal parser's indices have their C widths with wrap-around.
- Widths of the readers and dissectors: the 32-bit and 64-bit versions of a function are one method over a width.
- Template.FixupWalkTemplate: sets the flags in the tree it returns instead of in place; template and data trees are values, as are names, keys and dictionary tables.
- Branches for malformed template trees: unreachable for what the parser builds, hence not modelled.
- Parser: starts from abstract XML with recognised names; libxml2, letter case, the conversion of integer texts, what is left of a value that cannot be converted, and the reporting of static errors are not modelled.
- Packet.FastDissector.DissectFast: leaves out Wireshark's conversations, preferences and caching of packets already dissected.
- Client.FastMessage.Add: signed 64-bit arguments are taken to go through the signed encoder, which the client's option does not call; bits, the optional mode, plain hexadecimal and empty presence bits are not modelled.
- Display: names, field information, colours, columns and logging are not modelled; strings are the bytes that are printed, whatever they look like.
- Copy's error paths: errors D5 and D6 are noted and the field is read all the same; beyond the functions that the code computes, no claim is made about what is then stored.
- Sockets, threads, the pcap writer, the plan runner and the test utilities: no logic to prove.
