# An MQTT 5 client core, modelled and proved

The repository is a client for MQTT Version 5.0 written in Rust for small devices: it allocates nothing, it never
panics, and everything it does runs on buffers the caller hands it. This project models its core in Dafny and proves
what the core is for: that no byte of a stream is lost, repeated or reordered on the way in or on the way out; that what
one half of the library writes the other half reads; and that the properties, packets and buffers it builds are always
whole.

The modules follow the program:

- `Bytes`, `Link`: bytes and in-place writes; the transport and the clock, both adversaries. A transport's answers are an
  arbitrary function fixed in advance; its log keeps what it accepted and every offer made to it.
- `Header`, `Framing`: the variable byte integer and the fixed header; the frames a byte stream is cut into.
- `Grammar`, `Reader`, `Walks`, `Connack`, `Builder`, `Cursor`: the property grammar, the bounded reader under every walk,
  the six separately written walks, the CONNACK, the stateful printer and the cursor that reads it back.
- `Packet`, `Wire`, `Connect`, `Lists`, `Ack`, `Disconnect`, `Publishing`, `Received`: whole packets, with their size
  calculators, buffered serializers, gathered slices and decoders.
- `Standard`: the tables of MQTT Version 5.0 in its own numbers (packet types, properties, reason codes), and where those
  of the library are the same and where not.
- `Client`, `Gather`, `Replies`, `Account`, `Duty`, `Runs`, `Loop`: the context. The senders, the list sender that splits one
  packet over many gathers, the acknowledgements built from an application's reply, what the handling of a packet comes
  to, what a run of handlings adds up to, and the receive loop.

Code that only computes is a function; code that works by changing a buffer, a cursor or the context is a method over
arrays and class fields, proved against a specification function.

What the handlers do is stated once, as a plan (`Account.PlanOf`): a pure function of the packet, the settings and the
application's ruling that says what the application hears, what the store releases, what the reply section becomes and
what goes out. What the plan ought to be is stated apart from it and from every deserializer: `Duty` describes the
messages a broker may send in the numbers of section 3 of the standard, what this client owes each of them, and what
becomes of bytes that are none; and `Duty.PlanIsDuty` and `Duty.NoMessageIsRejected` prove that the plans are this.
Every handler is proved to carry its packet's plan out, and every call of the loop to have taken a list of steps
(`Account.Grew`), each a failed read, a PINGREQ or the handling of a packet: the transport's log, the events, the
stored copies, the released keys and the ping history grew by exactly what the steps say, in their order; and each
step begins with the reply section, the connection status and the debt of a PINGRESP that the step before it left
(`Account.Follow`). Results over a whole run are then lemmas about such lists, and take no other hypothesis about the
calls the steps come from.

What goes out is judged as a broker judges it: from the front of the stream, cut at the lengths it announces
(`Framing.Cut`).

Time is an adversary too. The senders are proved for every clock and transport of which one gets somewhere
(`Link.Lively`): a clock that ticks, or a transport that, however often it takes nothing, takes a byte or fails in the end.
A clock ticks (`Link.Clock.Ticks`) when it never goes back, when at most `patience` readings in a row say the same
millisecond, and when readings one or two apart, in one send or across two, are at most 2^32 - 20,001 milliseconds apart. The
bounds on the number of calls are 20,000 and 20,001 times `patience`; with one it is those numbers themselves. Only those
bounds, and that a timeout is a timeout in true time, ask for a clock that ticks.

The three times the keep alive is judged by are 32-bit readings; ghost fields beside them say which readings they are
(`Client.MqttContext.Timed`), every call keeps that true, and so what the keep alive does can be stated in true time.

Each packet has one layout function (`Connect.ConnectPacket`, `Lists.ListPacket`, `Ack.AckPacket`, `Disconnect.DisconnectPacket`,
`Publishing.PublishPacket`). The buffered serializer and the gathered sender are both proved against it, so the two forms
are the same bytes; the decoders used for the round trips of CONNECT, PUBLISH and the subscription lists are written from
sections 3.1, 3.3, 3.8 and 3.10 of MQTT Version 5.0 and not from the serializers.

## What the proofs found

File names without a path are in `crates/rusty_rtos_mqtt-core/src`.

- A packet is dropped only after its handler succeeded (`loop_.rs:181-199`). The comments at `client.rs:111-113` and
  `client.rs:1096-1099` say it has already been consumed when a handler fails; the code is followed, and
  `Loop.ReceiveSingleIteration` states that a refused packet still stands at the front. So the application hears a packet
  again when only its acknowledgement failed: what it hears are the events of the packets handled, not of those accepted
  (`Runs.HeardAreEvents`).
- The reply section is emptied only on the way to a send (`loop_.rs:936-941`), and a builder that is resumed has forgotten
  which properties are there (`builder.rs:148-158`). An application that adds a reason string, forgets the reason code and
  adds the string again when the packet is handled again has built a section no acknowledgement may carry, and from then on
  every reply is refused (`Replies.TwoReasonStrings`, `Replies.NoReplyEverAgain`). `Replies.RefusedSections` is the exact
  condition: a property other than the reason string and the user property, or a second reason string.
- The repeat flag of the outgoing DISCONNECT walk is declared inside its loop and catches nothing
  (`disconnect.rs:266-301`); the CONNECT walk guards four of the nine properties it reads (`context.rs:181-262`).
- A send that is given up at its deadline part-way through a packet leaves the connection standing (`client.rs:755-765`;
  the PINGREQ at `client.rs:889-895`), and whatever is sent next is read by a broker as the rest of the unfinished packet.
  One byte of a PINGREQ and then a whole PUBACK are to a broker the first five bytes of a packet of 66
  (`Runs.UnfinishedHides`), although the handler of the PUBLISH answered success. What goes out is packets if and only if
  no send was given up part-way (`Runs.StreamIsPackets`), and one that was has answered `SendFailed`
  (`Runs.UnfinishedHasFailed`).
- The code tables part from the standard's in three places. What comes in as an UNSUBACK is read with the SUBACK's codes,
  so one that says no subscription existed is refused (`Standard.UnsubackIsReadAsSuback`); an incoming DISCONNECT may not
  say that the connection rate was exceeded (`Standard.DisconnectCodes`), and is answered as malformed; and the four publish
  acknowledgements are read with one table (`Standard.CodesReadAlike`).
- A PUBREC is answered with a PUBREL whatever its code says (`Runs.AcceptedIsAnswered`); section 4.3.3 wants one only for a
  code below 0x80.
- Wrapping subtraction never makes the keep alive act too soon. It can make it act late: a client that is not called for
  2^32 milliseconds takes the silence for a short one (`Loop.DueIsTrue` has the exact bound). And a transport that answers
  a send with a count of zero moves the time of the last transmission all the same (`client.rs:736-741`).
- Three adders have no getter: every getter refuses what they write (`Cursor.WrittenButNeverRead`).
- Above the legal maximum the variable byte integer is sized as four bytes and written as five
  (`Header.EncodeVariableLength`), and that is how the header writers come to refuse such a length. The DISCONNECT writer
  does not always: into a buffer of exactly five bytes, without a reason code, it writes every illegal length cut off after
  four bytes and answers 5 (`Wire.SerializeDisconnectFixed`). What it has written no header decoder accepts, whatever
  follows (`Wire.CutHeaderIsRefused`). Its two callers in the library do not get there.
- The comment at `publish.rs:304-313` calls the three length floors of an incoming PUBLISH restatements of the slice bounds
  behind them. The first one is not: it alone refuses a body whose topic, section and payload are all empty, three bytes
  long at level zero (`Received.FloorIsNeeded`), which is the only shape it decides (`Received.PublishExact`). And the two
  places said to answer with the status for a bad argument over what a broker chose (`publish.rs:109-114`) are never
  reached: the floors have asked before (`Received.BrokerIsBlamed`).
- An acknowledgement of six bytes, with a code and an empty section, is refused by the reader when problem information was
  not requested, although it carries none (`Ack.AckRoundTrip`). A refused serialization can have its first byte
  overwritten: the type byte is written before the buffer is asked whether it holds the code, the body is asked whether it
  is legal and the buffer is asked whether it holds the packet (`outbound.rs:375-431`), and all three refusals have the
  status for a bad argument. `Ack.SerializeAck` says exactly when (`Ack.MayBegin`).
- A SUBACK with a section and no reason code at all is accepted, as long as its body is four bytes or more
  (`Ack.SubAckTiles`).
- An empty filter that got past the validators would be sent by the gathered list sender and refused by the buffered
  serializer; it is the only difference between the two (`Gather.BufferedAgrees`).

## Model

| member | source | states |
|---|---|---|
| Header.EncodeVariableLength | crates/rusty_rtos_mqtt-core/src/header.rs:129-160 | writes exactly the canonical encoding of a legal length at the place asked for and nothing else, or nothing and answers 0; says what happens to a length past the maximum |
| Header.SizeVarIsLength | crates/rusty_rtos_mqtt-core/src/header.rs:109-125 | the size table is the length of the encoding for every legal value |
| Header.DecodeVarExact | crates/rusty_rtos_mqtt-core/src/property.rs:324-365 | a property length is accepted if and only if the bytes start with the encoder's bytes for it: truncated, over-long and non-minimal forms are all refused |
| Header.DecodeVariableLength | crates/rusty_rtos_mqtt-core/src/property.rs:324-365 | the accumulating loop with its three refusals computes that decoder, and its range check cannot fire |
| Header.ProcessIncomingPacketTypeAndLength | crates/rusty_rtos_mqtt-core/src/header.rs:208-277 | the loop, bounded by both the buffer and the count of bytes that arrived, computes the verdict on the bytes that arrived |
| Header.HeaderExact | crates/rusty_rtos_mqtt-core/src/header.rs:208-277 | a header is accepted if and only if it is a legal type byte followed by the encoder's bytes for a legal length |
| Header.HeaderStable | crates/rusty_rtos_mqtt-core/src/header.rs:208-277 | an accepting or refusing verdict never changes as more bytes arrive |
| Header.HeaderPrefixAsksForMore | crates/rusty_rtos_mqtt-core/src/header.rs:208-277 | every proper prefix of an accepted header answers no data or more bytes needed, and nothing else |
| Header.FiveBytesDecide | crates/rusty_rtos_mqtt-core/src/header.rs:208-277 | a buffer can always settle the header it holds if and only if it holds five bytes |
| Header.TwoDecodersAgree | crates/rusty_rtos_mqtt-core/src/header.rs:208-277 | the header decoder and the property length decoder, written separately, accept the same lengths |
| Standard.FirstByteDecides | crates/rusty_rtos_mqtt-core/src/header.rs:167-277 | whatever its length and whatever follows, a header is read if and only if its first byte is one of those listed in hexadecimal; PINGRESP and the four legal PUBREL nibbles among them |
| Standard.NumbersOnTheWire | crates/rusty_rtos_mqtt-core/src/header.rs:109-160 | the examples of sections 1.5.2, 1.5.3 and 1.5.5: both ends of every width of the variable byte integer, and the high byte first |
| Grammar.SectionExact | crates/rusty_rtos_mqtt-core/src/cursor.rs:101-138 | a section parses to a property list if and only if it is that list printed: reading is exact and unambiguous |
| Grammar.ParseAppend | crates/rusty_rtos_mqtt-core/src/cursor.rs:101-138 | two whole sections end to end are the whole section of both lists |
| Standard.WidthsAreStandard | crates/rusty_rtos_mqtt-core/src/cursor.rs:101-138 | the width of every identifier is that of the column of types in section 2.2.2.2 |
| Reader.PropertyReader.U8 | crates/rusty_rtos_mqtt-core/src/property.rs:103-122 | reads one byte inside section and budget and moves past it; a repeat or a short section is refused and nothing moves |
| Reader.PropertyReader.U16 | crates/rusty_rtos_mqtt-core/src/property.rs:125-144 | the same for two big-endian bytes |
| Reader.PropertyReader.U32 | crates/rusty_rtos_mqtt-core/src/property.rs:147-166 | the same for four big-endian bytes |
| Reader.PropertyReader.Utf8 | crates/rusty_rtos_mqtt-core/src/property.rs:261-298 | reads a length-prefixed string and leaves the reader where the code leaves it on every refusal |
| Reader.PropertyReader.UserProperty | crates/rusty_rtos_mqtt-core/src/property.rs:301-321 | reads two strings as one pair, refusing either half |
| Reader.PropertyReader.VariableLength | crates/rusty_rtos_mqtt-core/src/property.rs:217-247 | reads the variable-width value inside section and budget and moves past just its bytes |
| Walks.WalkExact | crates/rusty_rtos_mqtt-core/src/cursor.rs:101-264 | each of the walks accepts a section if and only if it is a whole property list of its own table with its own value rules and no repeat of what it guards |
| Standard.WalksAreStandard | crates/rusty_rtos_mqtt-core/src/connack.rs:476-609 | each walk reads exactly the properties section 2.2.2.2 gives its packet, less what the other side alone may send |
| Standard.RepeatsThatPass | crates/rusty_rtos_mqtt-core/src/context.rs:181-262 | the repeats a walk lets pass are those the standard allows and, walk by walk, those the source does not guard |
| Standard.ValuesThatPass | crates/rusty_rtos_mqtt-core/src/connack.rs:476-609 | the value rules of every walk in numbers, and which walks blame the caller |
| Walks.WhoIsBlamed | crates/rusty_rtos_mqtt-core/src/disconnect.rs:266-301 | in a walk over what the caller wrote, the caller is blamed if and only if the walk stopped at a property that has no business there or after a value it refuses |
| Walks.WalkAckProperties | crates/rusty_rtos_mqtt-core/src/ack.rs:356-375 | the loop over the reader is the acknowledgement walk, refusals and statuses included |
| Walks.WalkIncomingProperties | crates/rusty_rtos_mqtt-core/src/disconnect.rs:227-251 | the loop is the incoming DISCONNECT walk |
| Walks.ValidateOutgoingProperties | crates/rusty_rtos_mqtt-core/src/disconnect.rs:266-301 | the loop is the outgoing DISCONNECT walk, whose repeat flag catches nothing and whose expiry rule depends on the CONNECT |
| Walks.ValidatePublishAckProperties | crates/rusty_rtos_mqtt-core/src/validate.rs:495-516 | the loop is the walk a reply is validated with: the reader's table, another status for a stranger and for a section no packet can carry |
| Walks.ConnectionProperties.UpdateWithConnectProps | crates/rusty_rtos_mqtt-core/src/context.rs:181-262 | the walk that fills the context: its answer, and the limits it leaves behind, those decoded before a refusal included |
| Walks.LimitsOfSection | crates/rusty_rtos_mqtt-core/src/context.rs:181-262 | the limits a section leaves behind are, field by field, the last numbers it carried before the walk stopped, and otherwise what they were |
| Walks.ReadableOfAccepted | crates/rusty_rtos_mqtt-core/src/context.rs:181-262 | a walk that accepts has stored exactly the section's own properties |
| Connack.WalkConnackProperties | crates/rusty_rtos_mqtt-core/src/connack.rs:476-609 | the seventeen-armed loop is the CONNACK walk, and the settings it leaves are those of the properties it read |
| Connack.Boolean | crates/rusty_rtos_mqtt-core/src/connack.rs:617-625 | one byte that must be 0 or 1 |
| Connack.AcceptedIsLegal | crates/rusty_rtos_mqtt-core/src/connack.rs:314-408 | an accepted CONNACK is one, fits the limit, and is flags, a known code and a legal property list, tiling its body; it reports exactly those |
| Connack.LegalIsAccepted | crates/rusty_rtos_mqtt-core/src/connack.rs:314-408 | every legal CONNACK that the client's limit allows is accepted and reported as it is |
| Connack.ConnackStatus | crates/rusty_rtos_mqtt-core/src/connack.rs:314-408 | the caller is blamed if and only if the packet is no CONNACK or the limit is zero |
| Connack.BitsAndSettings | crates/rusty_rtos_mqtt-core/src/connack.rs:476-609 | of an accepted section a bit is set if and only if its identifier occurs, and a setting is its one occurrence, or zero when it is absent |
| Connack.ServerReports | crates/rusty_rtos_mqtt-core/src/connack.rs:476-609 | the settings filled property by property are the settings of the whole list |
| Connack.FieldOfIsInjective | crates/rusty_rtos_mqtt-core/src/connack.rs:83-143 | no two properties share a bit |
| Standard.BitsAreNumbered | crates/rusty_rtos_mqtt-core/src/connack.rs:83-143 | each property has the bit of its place in the numbering the client reads |
| Builder.PropertyBuilder.Resume | crates/rusty_rtos_mqtt-core/src/builder.rs:116-158 | a builder put over a buffer keeps the bytes there and forgets the bits; `new` is the same at zero |
| Builder.ResumeExact | crates/rusty_rtos_mqtt-core/src/builder.rs:116-158 | which buffers and positions a builder takes, and which status a refusal has |
| Builder.PropertyBuilder.AuthData | crates/rusty_rtos_mqtt-core/src/builder.rs:589-603 | one step of the builder's state machine: refused without a method, and a refusal changes no byte, cursor or bit |
| Builder.PropertyBuilder.ResponseTopic | crates/rusty_rtos_mqtt-core/src/builder.rs:678-697 | the same step, refusing wildcards |
| Builder.PropertyBuilder.SubscriptionId | crates/rusty_rtos_mqtt-core/src/builder.rs:750-793 | the same step for the one variable-width property, encoded in place |
| Builder.PropertyBuilder.UserProperty | crates/rusty_rtos_mqtt-core/src/builder.rs:796-863 | the same step for the one property that may repeat |
| Builder.PropertyBuilder.AddFixed | crates/rusty_rtos_mqtt-core/src/builder.rs:320-449 | the step the fixed-width adders share: room, table, repeat and size questions in order, then the bytes |
| Builder.PropertyBuilder.Put | crates/rusty_rtos_mqtt-core/src/builder.rs:356-371 | once room was found every write is inside the buffer: the late refusals are unreachable |
| Builder.RunStaysBuilt | crates/rusty_rtos_mqtt-core/src/builder.rs:320-863 | over every run of adder calls from any base, refusals included: the section is the base and the accepted properties printed, the bits are exactly theirs, nothing but the user property repeats, authentication data follows a method, the capacity holds |
| Builder.RunFromNew | crates/rusty_rtos_mqtt-core/src/builder.rs:116-134 | from `new` the section is at every moment one whole well-formed property list that parses back to the accepted calls |
| Builder.TooLongIsUnreachable | crates/rusty_rtos_mqtt-core/src/builder.rs:320-352 | in a buffer `new` accepts the second size limit never speaks |
| Builder.AdderExact | crates/rusty_rtos_mqtt-core/src/builder.rs:320-863 | what an adder answers, from what was added before: a value refused, a repeat, a packet that may not carry it, or no room, in that order; nothing else stops it |
| Standard.BuilderIsStandard | crates/rusty_rtos_mqtt-core/src/builder.rs:216-305 | which properties the builder lets into which packet are the columns of section 2.2.2.2, the will properties among a CONNECT's |
| Standard.AddersAndGetters | crates/rusty_rtos_mqtt-core/src/cursor.rs:282-394 | there is an adder for every property a client may send and a getter for all but three of all properties |
| Cursor.PropertyCursor.NextType | crates/rusty_rtos_mqtt-core/src/cursor.rs:179-228 | names the property under the cursor without moving |
| Cursor.PropertyCursor.Skip | crates/rusty_rtos_mqtt-core/src/cursor.rs:231-264 | lands on the end of the property under the cursor, or refuses and stays |
| Cursor.PropertyCursor.One | crates/rusty_rtos_mqtt-core/src/cursor.rs:282-394 | any getter: the value of the one property it is for, past it; on a refusal the cursor stays |
| Cursor.PropertyCursor.SubscriptionId | crates/rusty_rtos_mqtt-core/src/cursor.rs:268-337 | the same for the variable-width property, in sections of any length |
| Cursor.GetExact | crates/rusty_rtos_mqtt-core/src/cursor.rs:268-394 | a getter answers with a value if and only if its property stands there in full with that value; at the end, and before another property, it says which |
| Cursor.SkipExact | crates/rusty_rtos_mqtt-core/src/cursor.rs:231-264 | skipping lands on a place if and only if one whole property fills the bytes up to it |
| Cursor.BuilderReadsBack | crates/rusty_rtos_mqtt-core/src/cursor.rs:231-394 | for every run of adder calls, at every property: of all the getters just the matching one, if there is one, answers, with the value added; `skip` lands where it does; the last lands exactly at the end |
| Cursor.PrintedSkipsThrough | crates/rusty_rtos_mqtt-core/src/cursor.rs:231-264 | a printed section is skipped through, one skip per property |
| Cursor.OneGrammar | crates/rusty_rtos_mqtt-core/src/cursor.rs:101-264 | every section any walk accepts is skipped through with no refusal, one skip per property the walk saw, ending exactly at the end |
| Cursor.WrittenButNeverRead | crates/rusty_rtos_mqtt-core/src/cursor.rs:282-394 | of all that any run of the builder wrote, every one of the twenty-four getters refuses a property where it stands if and only if it is one of three, and `skip` gets past it |
| Cursor.NeverReadIsWritten | crates/rusty_rtos_mqtt-core/src/builder.rs:528-660 | each of those three can be written, with any value of its kind |
| Wire.PutSection | crates/rusty_rtos_mqtt-core/src/connect.rs:318-339 | appends exactly the encoded length and the section, or fails if and only if it is too long or will not fit |
| Wire.PutString | crates/rusty_rtos_mqtt-core/src/connect.rs:342-354 | appends exactly the length-prefixed string, or fails and changes nothing |
| Wire.SerializeIdHeader | crates/rusty_rtos_mqtt-core/src/writer.rs:256-311 | type, length and identifier whole, or nothing; every illegal length is refused |
| Wire.SerializeDisconnectFixed | crates/rusty_rtos_mqtt-core/src/writer.rs:320-352 | answers nothing if and only if the buffer is short, or the length illegal and not the case of no code and exactly five bytes; what is written in either case |
| Wire.CutHeaderIsRefused | crates/rusty_rtos_mqtt-core/src/writer.rs:320-352 | what that case leaves in the buffer is refused by the header decoder, whatever bytes follow |
| Wire.WriteFront | crates/rusty_rtos_mqtt-core/src/writer.rs:284-352 | the length written is the length sized if and only if it is legal or the buffer ends after five bytes; what stands in the buffer either way |
| Connect.SizeIsExact | crates/rusty_rtos_mqtt-core/src/connect.rs:126-234 | no sum saturates: for every CONNECT whose fields and sections fit, the sums are the lengths of the body and of the packet |
| Connect.SizeAcceptsWhatFits | crates/rusty_rtos_mqtt-core/src/connect.rs:126-234 | it accepts if and only if every field fits, the identifier does not begin with a zero byte and the body is legal |
| Connect.SerializeConnectFixedHeader | crates/rusty_rtos_mqtt-core/src/writer.rs:159-252 | the ten bytes of variable header behind the fixed header, or nothing |
| Connect.SerializeConnect | crates/rusty_rtos_mqtt-core/src/connect.rs:249-315 | succeeds if and only if sizes and fields fit the buffer; then the packet stands at its front and no byte past it changed; a refusal blames the arguments if and only if one of the lengths asked about first is wrong or a wrong one is reached before the buffer runs out |
| Connect.FlagsDecode | crates/rusty_rtos_mqtt-core/src/writer.rs:188-240 | the flag byte gives back the five decisions packed in it |
| Connect.ConnectRoundTrip | crates/rusty_rtos_mqtt-core/src/connect.rs:249-315 | for every CONNECT the calculator accepts, a decoder written from section 3.1 of the standard recovers every field, absent and empty user name, password and will told apart |
| Lists.ListPacketSize | crates/rusty_rtos_mqtt-core/src/size.rs:128-211 | accepts if and only if the list is not empty and filters, total and packet fit; the in-loop check and the saturation change no answer |
| Lists.ListSizeIsTrue | crates/rusty_rtos_mqtt-core/src/size.rs:128-260 | the calculator's numbers are the lengths of the body and of the packet |
| Lists.SerializeList | crates/rusty_rtos_mqtt-core/src/outbound.rs:188-247 | succeeds if and only if the arguments are serializable and both the claimed size and the bytes fit; then the packet is there and nothing past it changed; which refusal has which status, the buffer being asked about before the filters |
| Lists.EntriesReadBack | crates/rusty_rtos_mqtt-core/src/outbound.rs:188-247 | a reader written from section 3.8.3.1 finds the subscriptions in order, field by field: level, no-local, retain as published, retain handling; of an UNSUBSCRIBE, the filters |
| Lists.OptionsReadBack | crates/rusty_rtos_mqtt-core/src/outbound.rs:148-172 | a byte reads by section 3.8.3.1 as these fields if and only if it is the one written for them, its reserved bits clear |
| Lists.ListComesBack | crates/rusty_rtos_mqtt-core/src/outbound.rs:188-247 | the whole packet, read as sections 3.8 and 3.10 lay it out, gives back which of the two it is, its identifier, its section and its entries |
| Lists.OptionsAreInjective | crates/rusty_rtos_mqtt-core/src/outbound.rs:148-172 | no two subscriptions ask for different things with one options byte |
| Lists.AllPiecesAreEntries | crates/rusty_rtos_mqtt-core/src/client.rs:1464-1514 | the slices of the entries, end to end, are the entries as the buffered form lays them down |
| Ack.SerializeAck | crates/rusty_rtos_mqtt-core/src/outbound.rs:341-451 | succeeds if and only if identifier, code and section may be written for the type and fit; which refusal gets which status; a refusal touches nothing but the first byte, and exactly when the type byte has been written there |
| Ack.AckRoundTrip | crates/rusty_rtos_mqtt-core/src/ack.rs:137-275 | what was written comes back through header decoder and deserializer if and only if problem information was requested and the reading walk accepts the section; the four-byte form always |
| Ack.BuiltAckComesBack | crates/rusty_rtos_mqtt-core/src/outbound.rs:341-451 | a section built from `new` for a publish acknowledgement, serialized with any legal identifier and code, comes back as the same three things |
| Ack.WritableIsReadable | crates/rusty_rtos_mqtt-core/src/ack.rs:457-466 | every code the client may write is one it would read |
| Standard.CodesAreStandard | crates/rusty_rtos_mqtt-core/src/outbound.rs:308-335 | the codes of a CONNACK and of the acknowledgements as written are those of section 2.4 |
| Standard.CodesReadAlike | crates/rusty_rtos_mqtt-core/src/ack.rs:457-462 | a publish acknowledgement is read with any code one of the four may carry |
| Standard.UnsubackIsReadAsSuback | crates/rusty_rtos_mqtt-core/src/ack.rs:372-409 | both list acknowledgements are read with the SUBACK's codes, so one legal code of an UNSUBACK is refused |
| Ack.PubAckExact | crates/rusty_rtos_mqtt-core/src/ack.rs:203-275 | a publish acknowledgement is read if and only if its claimed body, present in full, is an identifier that is not zero alone, or with a known code, or with that and a legal section when problem information was requested; with just those parts |
| Ack.AckExact | crates/rusty_rtos_mqtt-core/src/ack.rs:137-204 | the same for every type, the size limit included; the caller is blamed if and only if it is a CONNACK or the limit is zero |
| Ack.SubAckTiles | crates/rusty_rtos_mqtt-core/src/ack.rs:279-347 | a list acknowledgement is accepted if and only if identifier, encoded length, section and codes tile exactly the claimed body |
| Ack.TwoBoundsAreOne | crates/rusty_rtos_mqtt-core/src/ack.rs:331-339 | the explicit bound on the section is the slice bound that follows it |
| Ack.OverclaimIsRefused | crates/rusty_rtos_mqtt-core/src/ack.rs:137-204 | for every type a claim longer than the bytes present is refused |
| Disconnect.SizeIsTrue | crates/rusty_rtos_mqtt-core/src/disconnect.rs:324-376 | what the calculator accepts, both its numbers are true of the packet |
| Disconnect.SizeAcceptsWhatFits | crates/rusty_rtos_mqtt-core/src/disconnect.rs:324-376 | it accepts if and only if code and section agree, the client may send the code, and body and packet fit |
| Disconnect.SerializeDisconnect | crates/rusty_rtos_mqtt-core/src/disconnect.rs:393-455 | succeeds if and only if the arguments agree and fit; then the packet is there and nothing past it changed; wrong arguments are blamed and touch nothing, any other refusal is for want of room |
| Disconnect.VectorsArePacket | crates/rusty_rtos_mqtt-core/src/client.rs:951-987 | the slices the client gathers are the packet the serializer writes |
| Disconnect.DisconnectRoundTrip | crates/rusty_rtos_mqtt-core/src/disconnect.rs:148-218 | what was sent reads back if and only if the code is legal coming in and the incoming walk accepts the section; the bare form reads back as code zero |
| Disconnect.DisconnectExact | crates/rusty_rtos_mqtt-core/src/disconnect.rs:148-218 | a DISCONNECT is read if and only if its claimed body, present in full, is nothing, a code a server may send, or that and a legal section; with just those parts |
| Standard.DisconnectCodes | crates/rusty_rtos_mqtt-core/src/disconnect.rs:121-143 | both directions of the code table against section 3.14.2.1: coming in it is one code short |
| Publishing.PublishSizeIsExact | crates/rusty_rtos_mqtt-core/src/outpublish.rs:112-175 | the shrinking budget accepts exactly the packets whose body is legal and that are small enough, and its number is the body's length |
| Publishing.RefusedPublishes | crates/rusty_rtos_mqtt-core/src/client.rs:1561-1640 | what is refused before anything is stored or sent, with which status and in which order |
| Publishing.PublishRoundTrip | crates/rusty_rtos_mqtt-core/src/client.rs:1598-1696 | a decoder written from section 3.3 of the standard recovers every field of the packet and its identifier |
| Publishing.PublishComesBack | crates/rusty_rtos_mqtt-core/src/publish.rs:150-266 | what the library sends its own reader reads, whatever follows: exactly the packets a broker may send this client, each as it is |
| Publishing.PartsArePacket | crates/rusty_rtos_mqtt-core/src/client.rs:1654-1696 | the three to six slices of a PUBLISH, end to end, are the packet |
| Publishing.GatherParts | crates/rusty_rtos_mqtt-core/src/client.rs:1654-1696 | every slice has a place in the array of six |
| Publishing.CopiesDifferByDup | crates/rusty_rtos_mqtt-core/src/client.rs:1641-1713 | the stored copy and the sent packet differ in one bit of the first byte, and are equal if and only if the flag was set already |
| Publishing.Publish | crates/rusty_rtos_mqtt-core/src/client.rs:1561-1737 | the copy with the flag raised is stored before anything goes out; a refusing store leaves the wire untouched; a prefix of the packet is accepted, the whole of it on success |
| Publishing.SerializeVector | crates/rusty_rtos_mqtt-core/src/client.rs:1218-1262 | the slices end to end at the front of the buffer, or nothing when they do not fit |
| Link.ElapsedAcrossTheWrap | crates/rusty_rtos_mqtt-core/src/client.rs:708-710 | wrapping subtraction is the true elapsed time while less than one wrap has gone by |
| Link.FewerThanFit | crates/rusty_rtos_mqtt-core/src/client.rs:742-764 | readings less than a stretch of time apart are fewer than that time allows, however many of them say the same |
| Client.MqttContext.SendBuffer | crates/rusty_rtos_mqtt-core/src/client.rs:720-765 | whatever the transport answers: the log grew by a prefix of the message, every call offered exactly the rest of it, a short delivery means the deadline passed; of a clock that ticks, in true time, and with at most 20,000 times `patience` calls; if anything went out the time of the last transmission is a reading of this call; the first offer is all of it |
| Client.MqttContext.SendVectors | crates/rusty_rtos_mqtt-core/src/client.rs:777-860 | the same for slices advanced in place, with at most 20,001 times `patience` calls; after the first offer no offer begins with an empty slice |
| Client.Advance | crates/rusty_rtos_mqtt-core/src/client.rs:822-840 | stepping over finished slices and into the partial one leaves exactly the bytes not taken |
| Client.MqttContext.Ping | crates/rusty_rtos_mqtt-core/src/client.rs:873-896 | two bytes through the buffer sender; only a PINGREQ that went out whole leaves a PINGRESP owed |
| Client.MqttContext.Disconnect | crates/rusty_rtos_mqtt-core/src/client.rs:916-988 | refuses without touching anything; otherwise connection, cursor and buffer are reset whether or not the packet gets out, and what was accepted is a prefix of the serializer's packet, the whole of it on success |
| Client.CloseExact | crates/rusty_rtos_mqtt-core/src/client.rs:916-950 | it refuses arguments that make no packet the server takes, and a client that was never connected, and nothing else |
| Client.FailureSteps | crates/rusty_rtos_mqtt-core/src/client.rs:755-765 | after a failed send nothing is connected, and a connection that was there can still be closed |
| Gather.TakeEntries | crates/rusty_rtos_mqtt-core/src/client.rs:1418-1449 | takes entries while a whole one fits, at least one when nothing is carried, and never more slices than the array holds, empty filters included |
| Gather.LayOut | crates/rusty_rtos_mqtt-core/src/client.rs:1451-1519 | every slice wanted is placed, for every number of slices from three up, and the total is their length |
| Gather.SendGather | crates/rusty_rtos_mqtt-core/src/client.rs:1404-1530 | one gather sends a prefix of its slices' bytes, the whole on success; a failure is the transport's or the deadline's |
| Gather.SendList | crates/rusty_rtos_mqtt-core/src/client.rs:1310-1535 | over all gathers the transport accepted a prefix of one packet, the whole of it exactly on success, the packet not depending on the number of slices; it terminates, and never fails because a slice had no room |
| Gather.GaveUpTruly | crates/rusty_rtos_mqtt-core/src/client.rs:845-858 | of a clock that ticks, a list send that gave up without the transport failing has lasted longer than the timeout |
| Gather.BufferedAgrees | crates/rusty_rtos_mqtt-core/src/outbound.rs:188-247 | that packet is the one the buffered serializer lays down in a buffer of the calculator's size, which refuses only empty filters |
| Framing.FramesConserve | crates/rusty_rtos_mqtt-core/src/loop_.rs:103-251 | frames and residue, end to end, are the stream, and every frame is whole |
| Framing.FramesResume | crates/rusty_rtos_mqtt-core/src/loop_.rs:103-251 | parsing may stop anywhere and go on from its residue |
| Framing.FramesAreUnique | crates/rusty_rtos_mqtt-core/src/loop_.rs:103-251 | a stream of whole packets and a tail is cut into exactly those packets |
| Framing.ChunkingIndependence | crates/rusty_rtos_mqtt-core/src/loop_.rs:103-251 | however a stream is cut into reads, the packets handed on are the parse of the stream and what is held its residue |
| Framing.TwoCutsAgree | crates/rusty_rtos_mqtt-core/src/loop_.rs:103-251 | two cuts of one stream end with the same packets and the same bytes held |
| Received.WalkPublishProperties | crates/rusty_rtos_mqtt-core/src/publish.rs:382-464 | the loop is the incoming PUBLISH walk, although it asks about the topic alias maximum only after the last property |
| Received.PublishExact | crates/rusty_rtos_mqtt-core/src/publish.rs:150-379 | a PUBLISH is read as `info` if and only if its first byte and its claimed body, present in full, are the flags and the body of `info`, and `info` is one a broker may send this client; the payload's subtraction never goes below zero |
| Received.BrokerIsBlamed | crates/rusty_rtos_mqtt-core/src/publish.rs:98-148 | which status a refusal has: the caller is blamed if and only if the type byte or the length is no PUBLISH's, so the two odd uses of that status cannot happen |
| Received.FloorIsNeeded | crates/rusty_rtos_mqtt-core/src/publish.rs:296-330 | an input the first length floor alone refuses |
| Duty.PlanIsDuty | crates/rusty_rtos_mqtt-core/src/loop_.rs:310-713 | for every message this client understands, whatever its settings, connection, standing section and the application's ruling, what the handlers do is what is owed: who hears what, what the store forgets, what is answered and how it ends |
| Duty.NoMessageIsRejected | crates/rusty_rtos_mqtt-core/src/loop_.rs:310-713 | a packet that is the wire form of no message the client understands is told to nobody, answered by nothing and refused; a DISCONNECT that does not read is answered with the four bytes of reason 0x81 where that is possible |
| Duty.AnswerIsKept | crates/rusty_rtos_mqtt-core/src/loop_.rs:743-801 | a PUBREC and a PUBREL are kept before they go out, 2^16 past their identifier, and not sent when the store refuses; a PUBACK and a PUBCOMP never are; the handler's answer in every case |
| Duty.OthersAreNot | crates/rusty_rtos_mqtt-core/src/loop_.rs:636-713 | whatever else a handling comes to, nothing is kept; and closing the connection over a malformed DISCONNECT is never a success |
| Duty.KeptUntilAnswered | crates/rusty_rtos_mqtt-core/src/loop_.rs:455-466 | what a PUBREC or PUBREL was kept under is what its answer forgets |
| Duty.PongSettles | crates/rusty_rtos_mqtt-core/src/loop_.rs:528-548 | the two bytes of a PINGRESP are a packet, and settle the debt of a client that manages its keep alive without a word |
| Runs.HeardIsTheFrame | crates/rusty_rtos_mqtt-core/src/loop_.rs:363-388 | the event of a PUBLISH has one wire form, and that is the packet that was handled, bit for bit |
| Runs.AcceptedIsAnswered | crates/rusty_rtos_mqtt-core/src/loop_.rs:310-506 | a packet whose handler succeeded was answered if and only if its first byte says so, at a client that keeps records: a PUBLISH of level one with a packet that begins 0x40, of level two with 0x50, a 0x50 with 0x62 and a 0x62 with 0x70, with its own identifier, and the whole of it |
| Runs.DuplicateIsAnswered | crates/rusty_rtos_mqtt-core/src/loop_.rs:347-388 | a PUBLISH the records already hold is acknowledged with its level's type, and told again at level one only |
| Runs.AcknowledgedOnTheWire | crates/rusty_rtos_mqtt-core/src/loop_.rs:103-208 | over any run: an accepted packet that was owed an acknowledgement has the whole of it on the wire in one piece and in its place, that piece reads as that acknowledgement of that packet, and a copy is stored if one is kept; a broker, cutting the stream from its front, finds it as a packet of its own, in its place, as long as no packet before it was left unfinished, that is, no send since the connection began was given up part-way |
| Runs.StreamIsPackets | crates/rusty_rtos_mqtt-core/src/loop_.rs:103-208 | a broker that was at the end of a packet cuts what a run adds to the stream into exactly the pieces the run said, one for each step that sent anything, if and only if no send was given up part-way; it is then at the end of a packet again; when every step succeeded none was |
| Runs.UnfinishedHides | crates/rusty_rtos_mqtt-core/src/client.rs:755-765 | a run that spoils the stream: a PINGREQ of which one byte gets out, the connection still Connected, then a PUBLISH of level one acknowledged whole with success; a broker finds no packet in the five bytes |
| Runs.UnfinishedHasFailed | crates/rusty_rtos_mqtt-core/src/loop_.rs:743-801 | a step that left a packet unfinished has failed: the handler of a packet answered that sending failed, and of a PINGREQ just the first byte went out |
| Framing.CutPackets | crates/rusty_rtos_mqtt-core/src/header.rs:208-277 | whole packets end to end are cut by a broker, at the lengths they announce, into just those packets |
| Framing.PiecesArePackets | crates/rusty_rtos_mqtt-core/src/header.rs:208-277 | whatever the stream, every piece a broker cuts off is exactly one packet |
| Runs.SilenceAfter | crates/rusty_rtos_mqtt-core/src/loop_.rs:636-713 | in any run: after a step that left the connection not Connected, be it a failed send, a failed read or a DISCONNECT, no step sends anything, a closing DISCONNECT apart, before which none did; once it is NotConnected none sends anything at all; and it does not become Connected again |
| Runs.NothingIsAnswered | crates/rusty_rtos_mqtt-core/src/loop_.rs:821-885 | over any run that begins with a section no reply may carry, no packet is ever answered and nothing is stored |
| Runs.GroundsAreWhole | crates/rusty_rtos_mqtt-core/src/loop_.rs:929-941 | every packet of a run meets a reply section that is a whole number of properties and fits its buffer |
| Runs.HeardAreEvents | crates/rusty_rtos_mqtt-core/src/loop_.rs:1050-1063 | what the application heard is a function of the packets handled, the settings and the rulings: neither the connection nor the reply section has a part in it |
| Runs.SamePacketsSameEvents | crates/rusty_rtos_mqtt-core/src/loop_.rs:1050-1063 | two clients that handled the same packets told the same events, whatever their connections and keep alives did |
| Runs.PassesAddUp | crates/rusty_rtos_mqtt-core/src/loop_.rs:103-208 | over any run of calls that did not throw the buffer away, however they ended: every byte read is in the accepted packets or held; the packets handed to handlers, with the immediate repeats of a refused one taken out, are the first packets of the whole stream, in order; the accepted ones are the first of those, and the whole parse of the stream once nothing whole is held; the books grew by just those steps |
| Runs.CutsHearAlike | crates/rusty_rtos_mqtt-core/src/loop_.rs:103-208 | however a stream is cut into reads, and whatever the connections, reads and keep alives did, two runs whose handlers succeeded and that hold no whole packet have told the same events in the same order |
| Runs.BetweenTwoPings | crates/rusty_rtos_mqtt-core/src/loop_.rs:144-168 | over any run of calls, from the steps alone, keep-alive checks between buffered packets included: between a PINGREQ that got out whole and the next one begun, a PINGRESP was handled and swallowed |
| Loop.Measure | crates/rusty_rtos_mqtt-core/src/loop_.rs:211-217 | the claimed length of the packet at the front, or the status for why there is none |
| Loop.PacketView | crates/rusty_rtos_mqtt-core/src/loop_.rs:1033-1042 | for a packet the loop has measured, the view is that packet and cannot fail |
| Framing.ViewIsWhole | crates/rusty_rtos_mqtt-core/src/loop_.rs:1033-1042 | every body handed to a handler is as long as it claims, and header and body are the whole packet |
| Loop.Consume | crates/rusty_rtos_mqtt-core/src/loop_.rs:248-251 | the packet leaves the front and exactly what followed it slides down |
| Loop.HandleKeepAlive | crates/rusty_rtos_mqtt-core/src/loop_.rs:261-293 | an outstanding PINGRESP times out if and only if more than 5,000 milliseconds have gone since the PINGREQ; with none outstanding a PINGREQ is begun, or refused by the connection, if and only if the keep alive is not zero and it or 30,000 milliseconds, whichever is less, have gone since the last transmission, or 30,000 since the last packet was accepted; at most one stays outstanding |
| Loop.DueIsTrue | crates/rusty_rtos_mqtt-core/src/loop_.rs:261-293 | of a clock that ticks, in true time: it never acts too soon, however long ago anything was, and acts in time as long as less than 2^32 milliseconds have gone by |
| Loop.KeepAliveTurn | crates/rusty_rtos_mqtt-core/src/loop_.rs:144-168 | keep alive is asked for exactly when nothing arrived, it is managed and the turn has not failed; when it goes well the turn's status stands |
| Loop.HandleIncomingPublish | crates/rusty_rtos_mqtt-core/src/loop_.rs:310-413 | the PUBLISH at the front is read, told and acknowledged as its plan says: the event is the whole publish, topic and payload included; a duplicate of level two is acknowledged and not told |
| Loop.HandlePublishAcks | crates/rusty_rtos_mqtt-core/src/loop_.rs:416-506 | what the deserializer makes of the packet reaches the application, the store is released under the right key, and the next step of the handshake is sent or a part of it |
| Loop.HandleOtherAck | crates/rusty_rtos_mqtt-core/src/loop_.rs:509-624 | a PINGRESP settles the debt silently when keep alive is managed and is told when it is not; list acknowledgements are told; anything else is refused |
| Loop.Turn | crates/rusty_rtos_mqtt-core/src/loop_.rs:118-205 | the packet at the front is handled, that one and once, or none and the turn says truly why; an accepted packet is gone from the front and stands in the history, a refused one stays; events, wire, store and keys grew by what the turn's steps say, and the connection status and the debt of a PINGRESP are as they left them; the context notes an acknowledgement that got out whole and no other |
| Loop.Admit | crates/rusty_rtos_mqtt-core/src/loop_.rs:122-142 | what was read is counted in behind what was there, and a failed read steps the connection down |
| Loop.Drop | crates/rusty_rtos_mqtt-core/src/loop_.rs:191-194 | the accepted packet leaves the buffer, joins the history and stamps the time of receipt |
| Loop.HandleIncomingDisconnect | crates/rusty_rtos_mqtt-core/src/loop_.rs:636-713 | the connection is given up on every path; a packet that reads is told; a malformed one is answered with code 0x81, throws the buffer away and never counts as accepted |
| Loop.HandlePacket | crates/rusty_rtos_mqtt-core/src/loop_.rs:220-245 | the packet at the front goes to the handler of its type and to no other, and its plan is carried out; whatever the handler answers the buffer and its history are untouched, unless a malformed DISCONNECT reset them; no handler asks for more bytes; the reply section stays whole; a DISCONNECT ends the connection, anything else steps it down at most, and not when all of its answer got out |
| Loop.HandleFront | crates/rusty_rtos_mqtt-core/src/loop_.rs:181-194 | that handling is one step more in the books, of just the packet at the front, with the connection status the handler left; only if it succeeded the packet leaves the buffer and joins the history |
| Loop.ReceiveSingleIteration | crates/rusty_rtos_mqtt-core/src/loop_.rs:103-208 | one read per call; bytes delivered are the accepted packets and then the buffer; the packets handed to handlers are the first packets of what was held and read, in order, each once, all of them when the call ends well or wants bytes; what was heard, sent, stored and released is what those handlings and the PINGREQs between them say, all but the last succeeded, and the connection status and the debt of a PINGRESP are as the last of them left it; a refused packet still stands at the front; a call that stops otherwise says truly why, and wanting bytes means there is room for them; an idle call does exactly what the keep alive asks; the loop terminates |
| Loop.ProcessLoop | crates/rusty_rtos_mqtt-core/src/loop_.rs:72-81 | the same with keep alive managed; the connection status, the debt of a PINGRESP and the ping history included; afterwards the context says that an acknowledgement went out if and only if one did in this call; of a clock that ticks an idle call times out or begins a PINGREQ only when the true times ask for it, and always then while less than 2^32 milliseconds have gone by; the times stay readings of the clock |
| Loop.ReceiveLoop | crates/rusty_rtos_mqtt-core/src/loop_.rs:92-100 | the same, the connection status included, never sending a PINGREQ; what the context says of acknowledgements sent is kept from before |
| Loop.AcceptedAreTheFirst | crates/rusty_rtos_mqtt-core/src/loop_.rs:181-199 | at every moment, failed handlers included, the accepted packets are the first packets of the stream that arrived |
| Loop.SameStreamSamePackets | crates/rusty_rtos_mqtt-core/src/loop_.rs:103-251 | two clients that received one stream in different pieces and caught up accepted the same packets and hold the same bytes |
| Loop.CallIsPass | crates/rusty_rtos_mqtt-core/src/loop_.rs:103-208 | every call that did not throw the buffer away is one pass of a run of calls, and holds what the next pass begins with; nothing whole when it ended well or wanted bytes |
| Replies.WithProperties | crates/rusty_rtos_mqtt-core/src/client.rs:1072-1091 | the resumed builder appends to what is there, and a whole section stays whole |
| Replies.ResumedStaysWhole | crates/rusty_rtos_mqtt-core/src/builder.rs:148-158 | whatever a resumed builder is asked to add, the section only grows at its end and stays a whole number of properties |
| Replies.Dispatch | crates/rusty_rtos_mqtt-core/src/loop_.rs:1050-1063 | the application hears of the packet once; a reply it was not asked for is dropped; the section stays whole |
| Replies.TwoCodeTablesAgree | crates/rusty_rtos_mqtt-core/src/loop_.rs:998-1030 | the loop's table of reason codes is the serializer's |
| Replies.AckSizeIsTrue | crates/rusty_rtos_mqtt-core/src/size.rs:77-116 | the reply's size is true of the packet, and the packet is no larger than the server takes |
| Replies.AckSizeExact | crates/rusty_rtos_mqtt-core/src/size.rs:77-116 | it accepts if and only if section, body and packet are legal and the packet fits the server's limit |
| Replies.SerializeAckFixed | crates/rusty_rtos_mqtt-core/src/writer.rs:112-149 | type, length, identifier and code whole, or nothing; every illegal length is refused |
| Replies.SendWithoutProperty | crates/rusty_rtos_mqtt-core/src/loop_.rs:743-801 | the four-byte reply: every refusal before a byte goes out, then store, send and records in order |
| Replies.ReplyVectorsArePacket | crates/rusty_rtos_mqtt-core/src/loop_.rs:906-960 | the gathered reply is the serializer's packet |
| Replies.BuildAndSendAckWithProps | crates/rusty_rtos_mqtt-core/src/loop_.rs:895-985 | the cursor is emptied before the send and whatever comes of it; the buffer is back in the context on every path; what goes out is a prefix of the packet with the section as it stood |
| Replies.SendWithProperty | crates/rusty_rtos_mqtt-core/src/loop_.rs:821-885 | a refused section, code or size sends nothing and leaves the section standing |
| Replies.SendAckFor | crates/rusty_rtos_mqtt-core/src/loop_.rs:726-740 | one account of both senders, and the reply section is whole after every outcome |
| Replies.ReplyIsReadable | crates/rusty_rtos_mqtt-core/src/loop_.rs:821-885 | a reply nothing refuses is a packet the serializer would write and the deserializer reads back |
| Replies.RefusedSections | crates/rusty_rtos_mqtt-core/src/validate.rs:495-516 | exactly which whole sections a reply refuses |
| Replies.NoReplyEverAgain | crates/rusty_rtos_mqtt-core/src/loop_.rs:821-885 | once such a section stands, every later reply is refused whatever the application adds or answers |
| Replies.TwoReasonStrings | crates/rusty_rtos_mqtt-core/src/client.rs:1072-1091 | for every legal reason string: added, refused for want of a code, and added again, it makes such a section |

## Left out

- The publish records (`state.rs`): a ruling fixed in advance says whether they move, to the state `state.rs:238-282` calculates for the packet, find a collision or refuse; the tables they keep are not modelled.
- The connection handshake, session resumption and packet-at-a-time reading (`session.rs`, `reader.rs`): a context is taken as the loop finds it.
- The list and topic validators (`client.rs:500-663`, `topic.rs`, the other validators of `validate.rs`): their verdict is a parameter of the senders. The last-entry-wins behaviour is theirs.
- The retransmit store is an adversary that keeps or refuses a copy; `retrieve` and the absence of a store in the reply path are not modelled (an absent store is one that always accepts and keeps nothing).
- The 32-bit mask of property fields is a set of bit positions; `usize` is unbounded, so the overflow refusal of `vector_bytes` and the conversions of a length above 2^32 on a 64-bit target appear only where the code tests them.
- A clock that stands still for ever with a transport that takes nothing for ever: the senders do not return then, which is how they are written. A clock that jumps by more than 2^32 - 20,001 milliseconds between two of three readings in a row is not one that ticks, and the bounds on calls and true time are not claimed of it.
- The whole-packet buffered PUBLISH serializers (`outpublish.rs:202-404`): the gathered form is proved against the layout instead.
- Reason messages and names, error conversions, getters and setters, logging, and the C drivers and benchmarks.
- Lists.SerializeList: what a call that runs out of buffer part-way leaves in it is not stated.
- Builder.PropertyBuilder.AddFixed: the slice refusals inside the writes are not modelled as branches; they are proved unreachable by the precondition of `Put`.
- Loop.PacketView: the handlers' refusals of a missing view are not modelled as branches, since for a measured packet the view is always there.
- Replies.TellAndReply: the refusal of a reply section of 2^28 bytes or more is not modelled as a branch; a builder cannot have been put over a buffer that large.
