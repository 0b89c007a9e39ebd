# Proofs about the NFC adapter's protocol code

The adapter bridges applications to an NFC daemon, and it carries a protocol stack of its own: the
BAC and PACE handshakes of electronic passports, secure messaging, the read loops that rebuild a
passport's files, a sweep over MIFARE Classic sectors, the NDEF record codec, and the asynchronous
state machines that run all of this while tags come and go. This project models that stack in Dafny
and proves what it is for.

The code that changes things in place is modelled as classes and methods (the two secure-messaging
sessions, the two handshakes, the file readers, the sweep and its key cache, the client with its
tag reads and passport reads, the byte loops of the codecs). Each such method is proved against a
specification function or an explicit relation, and the theorems are about those. The other end of
every protocol - a chip that follows ICAO Doc 9303-11 and section 7.2.3 of ISO/IEC 7816-4:2005, printers
of NDEF contents, machine readable zones and PACE announcements, a MIFARE card - is written from its
standard and computes for itself: the chip has its own CBC, retail MAC, key derivation and token
input, and parses every command on its own. So agreement of both ends is a statement and not a
definition.

## What is proved

- **A passport read, end to end.** A document is one application with several files, one of them
  selected, under one counter. After every round of the terminal's dialogue with it both counters
  agree and what is selected is what the round calls for; the dialogue ends with the zone in EF.DG1
  and exactly the declared bytes of EF.DG2 (`DialogueTheorems.WholeRead`, and as an object
  `PassportTerminal.ReadDocument`). Against any counterpart at all, a read that is over is a success exactly if it has the zone
  (`OutcomeIsTold`). Whoever types a document's number and dates gets its own keys, BAC opens one
  session, and the dialogue over it returns the printed zone, parsed to every field
  (`EndToEnd.HolderReadsDocument`, `BacReadsItsOwnZone`). PACE, over any abelian group, leads to the same dialogue,
  beginning with the selection of the application (`EndToEnd.PaceThenRead`).
- **Lockstep.** Against an honest chip that answers in pieces of any size the read loop holds a
  prefix of the file after every answer and ends with the first T bytes and equal counters
  (`FileReadTheorems.FileArrivesIntact`). Exactly when it completes is `ReadCompletesIff`. A readable
  file arrives from every chip that answers in full if and only if T is at most 32899
  (`ArrivesFromEveryChipIff`), and from every chip that answers in pieces if and only if T is at
  most 32768 (`ArrivesInAnyPiecesIff`). For texts of any lengths at all, the loop is done exactly if
  some prefix of them has the total's length (`DoneIffSumHitsTotal`).
- **Secure messaging.** A response is accepted exactly when it is what a key holder makes of that
  text and status (`ResponseTheorems.AcceptedIffSealed`); whatever a chip wraps, with unknown
  objects anywhere between, unwraps to the same data and status (`ResponseRoundTrip`); a command's
  body parses exactly when the data is short enough, and exactly then the chip recovers it
  (`CommandTheorems.CommandWalksIffShort`, `ChipRecoversCommandIff`).
- **Handshakes.** A BAC response is accepted if and only if it is bit for bit what a key holder
  sends. From MSE: SET AT to the tokens a chip that checks every command opens exactly the session
  the terminal holds (`PaceTheorems.Run`), and a token covers protocol and key
  (`Pace.TokenInputIsInjective`).
- **Asynchrony.** Over every interleaving of tag changes, teardown and completed calls, what is
  published describes the current tag, no tag read is freed twice, and every passport read
  is called back exactly once, releases the tag exactly once if it acquired it, succeeds exactly
  when DG1 parsed, and reads no handshake state before it was set. The read in progress
  is freed after a bounded number of completions whatever they bring (`NfcdClients.Settle`), and
  from every state completing the outstanding calls, in any order, frees every read
  (`NfcdClients.Drain`); the same for passport reads is `PassportReads.Settle`.
- **MIFARE sweep.** It ends within 616 transceives (536 cold) whatever the tag answers, the bound is
  attained, and a sweep from any reachable cache reports the same sectors and blocks as one from
  an empty cache. The commands are bytes: a card that parses them and checks its login is reported
  as it is (`MifareCards.CardIsReported`).
- **NDEF.** Whatever is written after the record type definitions is shown as what it is, Smart
  Posters to any depth (`NdefContents.MessageIsShown`). Parsing undoes printing; a cut-off message is refused unless the cut lies between two
  records; nesting costs five bytes a level; what the builders write reads back unchanged.
- **MRZ and EF.CardAccess.** Every zone printed after the standard is read field by field
  (`ZoneTheorems.PrintedZoneIsRead`); exactly which errors the check digits miss; exactly when the
  parsed fields reproduce the printed key material; and, from the selection of EF.CardAccess on,
  exactly which of its first eight announcements is tried (`PaceAnnouncements.SetUpFromDocument`).

Where the code and its comments disagree, the model follows the code:

- `src/bac.h:112` says that unwrapping a response always advances the counter. It advances only
  once the data objects have been accepted (`CounterMovesIffStructureAccepted`).
- The guards at `src/bac.c:663` and `src/pace.c:827` allow 223 and 190 bytes of command data. From
  120 and 112 bytes on, DO'87' has a length byte of 0x80 or more and is no valid short-form object:
  `CommandWalksIffShort` gives the exact limit, `LongDataObject87IsMisread` what is read instead, and
  by `ChipRecoversCommandIff` the chip refuses every such command.
- The two bytes after the data objects of a response are walked over as one more data object.
  `TrailingStatusAccepted` says exactly which such bytes pass; 90 00 does.
- The loops at `src/nfcd_client.c:2025-2062` and `src/nfcd_client.c:2170-2195` subtract without a
  sign: with a declared total below the length of the first answer they never complete (`ReadCompletesIff`).
- The limit of 65536 bytes for EF.DG2 exceeds what READ BINARY can address: from an offset of 0x8000
  on P1 names another file. `ArrivesFromEveryChipIff` and `ArrivesInAnyPiecesIff` give the limits
  that hold, 32899 and 32768.
- The payload of an absolute-URI record is shown as its URI (`src/ndef.c:265-272`); section 3.2.6 of
  NFCForum-TS-NDEF_1.0 puts the URI in the type field.
- Two length bytes of the Type 2 TLV are written without a check: `ReadType2OfType2` shows that the
  length wraps at 65536, and that the message comes back exactly when it is shorter.

## Layout

| file | contents |
|---|---|
| ByteStrings, Arithmetic | bytes, big-endian numbers, bit operations, division |
| SendSequenceCounter, Padding, BlockCiphers, BerTlv | the parts of secure messaging |
| SecureMessaging, Sessions | what protecting and unwrapping compute, and the two session objects |
| ChipCrypto, HonestChip, CommandTheorems, ResponseTheorems | the chip with its own cryptography, and what both ends understand of each other |
| FileRead, FileReadTheorems, FileReaders | the chunked read loop, its theorems, its object |
| KeyDerivation, BasicAccessControl, Pace, PaceChips, PaceTheorems | key derivation, the two handshakes, and PACE against its chip |
| Mrz, MrzParsing, Zones, ZoneTheorems | the zone and EF.DG1, and zones as documents print them |
| CardAccess, CardAccessRead, PaceAnnouncements | EF.CardAccess, and what documents announce in it |
| Documents, PassportDialogues, DialogueTheorems, PassportTerminals | the document, the terminal's side of a read as functions and as an object, and whole dialogues |
| EndToEnd | whole reads from the printed zone or the shared password |
| Mifare, MifareSweeps, MifareTheorems, MifareCache, MifareCards | the sweep as a machine, as an object, its theorems, and a card spoken to in bytes |
| NfcdClients, PassportReads | tag reads and passport reads under every interleaving |
| Ndef, NdefParser, NdefTheorems, NdefWriting, NdefContents, HexText | the NDEF codec, and contents as the record type definitions write them |

Block ciphers are keyed bijections on blocks, hashes and CMAC are functions of fixed output length,
and curve points form any commutative group with a neutral element; nothing is claimed about secrecy
or forgery. Calls into the crypto library can fail: a fault is a parameter of the modelled call.
Random numbers are parameters. `gsize` is a 64-bit number, and narrower casts are written out.

## Model

The main theorems come first; what they are built from follows by component.

| member | source | states |
|---|---|---|
| DialogueTheorems.WholeRead | src/nfcd_client.c:1860-2195 | After every round of a whole read - application after PACE, EF.DG1, its chunks, EF.DG2, its chunks - both counters have moved by two and agree and the document has selected what it should; the last round ends with the zone and exactly the declared bytes of the photo file |
| DialogueTheorems.OutcomeIsTold | src/nfcd_client.c:1860-2195 | Whoever answers whatever, and whatever calls of the library fail: a read that is over is a success exactly if EF.DG1 gave a zone, with that zone and the bytes of EF.DG2 that came |
| EndToEnd.HolderReadsDocument | src/nfcd_client.c:1358-2195 | From what a document says about its holder: number, birth and expiry as typed give the keys of the document that prints them; the read over BAC ends with its zone, and the terminal parses that to every field the document says |
| EndToEnd.BacReadsItsOwnZone | src/nfcd_client.c:1358-2195 | From the printed zone to the result: the typed fields give the document's keys, three exchanges in the clear open one session, and the dialogue over it ends with exactly that zone and the photo file |
| EndToEnd.PaceThenRead | src/nfcd_client.c:1696-2195 | Four PACE rounds agree on a session, and the whole dialogue over it, with its three selections, ends with what the document carries |
| FileReadTheorems.FileArrivesIntact | src/nfcd_client.c:1966-2062 | From a chip answering in pieces of any size: a prefix after every answer, both counters two further each time, and after at most one command for the header and one for each missing byte exactly the first T bytes |
| FileReadTheorems.ReadCompletesIff | src/nfcd_client.c:1977-2062 | For every file, the loop completes if and only if the first answer tells the total, the total is between that answer and both the limit and the file, and every offset asked at is plain |
| FileReadTheorems.ArrivesFromEveryChipIff | src/nfcd_client.c:2123-2195 | A readable file arrives from every chip that answers in full if and only if its total is at most 32899 bytes |
| FileReadTheorems.ArrivesInAnyPiecesIff | src/nfcd_client.c:2123-2195 | With answers in pieces of any size the limit is 32768 bytes, exactly |
| FileReadTheorems.DoneIffSumHitsTotal | src/nfcd_client.c:2025-2062 | Whatever texts are accepted - empty, short, too long - the loop is done if and only if the bytes held after some of them are exactly the total, modulo 2^64 |
| ChipCrypto.SuitesAgree | src/pace.c:817-1030 | In both suites the MAC, the encryption and the decryption of the terminal are those of section 9.8 of Doc 9303-11, computed block by block from the end: retail MAC or the first eight bytes of the CMAC, start value zero or the encrypted counter |
| ResponseTheorems.ResponseRoundTrip | src/bac.c:744-841 | Any data that fits, any status, any unknown objects between: the terminal gets that data and status, and the counter has moved once |
| ResponseTheorems.AcceptedIffSealed | src/bac.c:781-840 | A response is accepted with text p and a status if and only if DO'87' is 01 and the encryption of p, 80 and zeros, DO'99' is the status and DO'8E' ends with the MAC over the advanced counter and these objects |
| CommandTheorems.CommandWalksIffShort | src/bac.c:663-741 | The chip's walk splits the body into exactly DO'87', DO'97' and DO'8E' if and only if the data has at most 119 (BAC) or 111 (PACE) bytes |
| CommandTheorems.ChipRecoversCommandIff | src/bac.c:651-742 | Within the guard the chip recovers header, data and Le from a command with at most 119 (BAC) or 111 (PACE) bytes of data and refuses every longer one |
| BasicAccessControl.AcceptedIffFromKeyHolder | src/bac.c:356-399 | A response is accepted with key half k if and only if it is bit for bit what a key holder with k sends, computed with the cryptography of the chip |
| BasicAccessControl.HandshakeAgrees | src/bac.c:322-399 | With the same static keys the chip accepts the command, the terminal the answer, and both hold one session |
| PaceTheorems.Run | src/pace.c:373-781 | A whole run from MSE: SET AT to the tokens, with the same password, protocol and regular scalars: the chip, with its own keys and token inputs, takes every command, the terminal every answer, and the chip opens exactly the session the terminal holds |
| NfcdClients.AnyInterleaving | src/nfcd_client.c:380-1094 | Over every interleaving, what is published describes the current tag, the read in progress is a live read of it, and each read started is either live or freed, never both |
| NfcdClients.Settle | src/nfcd_client.c:380-1094 | Whatever its calls bring, the read in progress is freed after at most two completions and 616 more for MIFARE, or two for each record and two for raw contents; its final contents are published, or it had none |
| NfcdClients.Drain | src/nfcd_client.c:380-1094 | From every state, with the outstanding calls completing in any order and with any outcomes, every read is freed exactly once within that bound, and what stays published is the last contents of the read in progress |
| PassportReads.AnyInterleaving | src/nfcd_client.c:1163-2280 | Every dispatched read waits for exactly one call or is settled: one callback, one release if acquired, success exactly when DG1 parsed |
| PassportReads.Settle | src/nfcd_client.c:1306-2195 | Whatever its calls bring, a read is settled after at most fourteen completions and one more for each further chunk of a file |
| MifareTheorems.SweepEnds | src/nfcd_client.c:526-783 | The sweep is over after 616 answers, after 536 when nothing is remembered for the tag |
| MifareTheorems.BoundIsAttained | src/nfcd_client.c:526-783 | With a key remembered for every sector some answers need all 616 |
| MifareCache.CacheIsTransparent | src/nfcd_client.c:460-783 | From every reachable cache the same sectors and blocks are reported as from an empty one |
| MifareCache.SweepReportsTag | src/nfcd_client.c:526-783 | A completed sweep reports, for every sector in order, exactly what the key for it reads |
| MifareCards.CardIsReported | src/nfcd_client.c:526-783 | From every reachable cache a card that is spoken to in bytes and checks its login is reported as it is, sector by sector |
| MifareCache.SecondSweepIsIdentical | src/nfcd_client.c:460-783 | Sweeping the same tag again reports the same, keys included |
| NdefContents.MessageIsShown | src/ndef.c:119-359 | Every message written after the record type definitions, Smart Posters in Smart Posters to any depth, is shown item by item as what it is |
| NdefTheorems.DecodeInvertsPrint | src/ndef.c:292-359 | A printed message is parsed back to exactly its records, and bytes after the end flag are ignored |
| NdefTheorems.CutMessage | src/ndef.c:292-359 | A cut-off message is refused unless the cut lies between two records, and then gives exactly the records before it |
| NdefWriting.WrittenUriReadsBack | src/ndef.c:119-434 | Every accepted URI comes back from the tag unchanged |
| NdefWriting.WrittenTextReadsBack | src/ndef.c:139-467 | Every accepted text comes back with its language, "en" where none was given |
| NdefWriting.ReadType2OfType2 | src/ndef.c:721-751 | A Type 2 reader gets the message back if and only if it is shorter than 65536 bytes |
| ZoneTheorems.PrintedZoneIsRead | src/bac.c:522-583 | Of every zone printed line by line after Doc 9303-4 and 9303-5, with any check digits, the terminal reads every field and tells of each digit whether it is the right one |
| ZoneTheorems.TypedFieldsGiveAccess | src/bac.c:240-280 | The hashed text is number, birth and expiry of the document, each with its check digit, whether the number is typed in small letters or large |
| Mrz.SubstitutionIsNoticedIff | src/bac.c:215-229 | A substitution keeps the check digit if and only if the two values agree modulo ten |
| Mrz.TranspositionIsNoticedIff | src/bac.c:215-229 | Swapping two neighbours keeps the check digit if and only if their values agree modulo five |
| MrzParsing.KeysMatchZoneIff | src/bac.c:240-280 | The parsed fields reproduce the printed key material if and only if all three flags hold, the dates are full and fillers only trail the number |
| PaceAnnouncements.SetUpFromDocument | src/nfcd_client.c:1340-1658 | A document that announces these protocols and domains is set up with the first of its first eight announcements that is ECDH with generic mapping and AES of 128 or 256 bits on one of three curves |
| CardAccessRead.SetUpFromChip | src/nfcd_client.c:1340-1658 | Against a document whose EF.CardAccess is a set of SecurityInfos the terminal selects and reads it and tries the first supported of the first eight PACE entries, or names what it found |
| SendSequenceCounter.Increment | src/bac.c:633-638 | The in-place carry loop leaves the successor of the counter, for 8 and 16 bytes alike |
| SendSequenceCounter.NextIsPlusOne | src/bac.c:633-638 | Read as a big-endian number the successor is plus one modulo 256^n |
| SendSequenceCounter.AdvanceIsPlus | src/bac.c:706 | After k steps the counter is the start plus k modulo 256^n |
| SendSequenceCounter.NeverRepeats | src/bac.c:781 | Two positions less than 256^n steps apart never show the same counter |
| Padding.PadIsAlignedAndMinimal | src/bac.c:110-123 | Padding appends 0x80 and then the fewest zeros that complete a block |
| Padding.Pad | src/pace.c:793-806 | The append loop builds exactly the padded string |
| Padding.StripPadding | src/bac.c:827-836 | The backward loop returns what precedes 0x80 and a tail of zeros, or fails |
| Padding.UnpadAccepts | src/bac.c:827-836 | A string unpads to p if and only if it is p, 0x80 and any number of zeros, aligned or not |
| Padding.UnpadInvertsPad | src/bac.c:827-836 | Unpadding undoes padding for every string and block size |
| Padding.PadIsInjective | src/bac.c:110-123 | Different strings never pad to the same string |
| BlockCiphers.CbcDecryptInvertsEncrypt | src/bac.c:61-92 | CBC decryption undoes encryption for any lawful cipher, key and start value |
| BlockCiphers.CbcEncryptInvertsDecrypt | src/bac.c:61-92 | And the other way round, so CBC is a bijection on aligned strings |
| BlockCiphers.Ede3IsLawful | src/bac.c:61-71 | Encrypt-decrypt-encrypt over a lawful cipher is lawful under 24-byte keys |
| BlockCiphers.CbcOfEde3EqualKeysIsCbcOfDes | src/bac.c:73-92 | Triple DES with three equal keys is single DES, over whole messages |
| BlockCiphers.RetailMac | src/bac.c:130-149 | The MAC computed with CBC and two ECB calls is MAC algorithm 3 of ISO/IEC 9797-1 over single DES, for every message |
| ByteStrings.BytesEqual | src/bac.c:154-161 | The comparison without early exit is true exactly for equal strings |
| BerTlv.EncodeIsObject | src/bac.c:404-447 | The length parser reads back every length written in its shortest form |
| BerTlv.LengthForms | src/bac.c:404-431 | The three forms of a length, shortest or not, and nothing else |
| BerTlv.SplitConcat | src/bac.c:761-775 | Walking a row of data objects returns exactly those objects, then whatever the rest gives |
| BerTlv.SplitSpellsInput | src/bac.c:761-775 | A successful walk spells its input, up to one stray byte at the end |
| SecureMessaging.Suite.DecryptInvertsEncrypt | src/pace.c:833-860 | In both suites what is encrypted under a counter decrypts under the same counter |
| SecureMessaging.Suite.EncryptInvertsDecrypt | src/pace.c:990-1027 | And what decrypts under a counter encrypts to the same bytes under it |
| ChipCrypto.RetailMacIsAlgorithm3 | src/bac.c:130-149 | The retail MAC by its definition, from the last block back, is the one the terminal computes |
| ChipCrypto.TripleDesIsEde3 | src/bac.c:61-92 | Two-key triple DES in CBC mode by its definition is what the library is called for |
| ChipCrypto.OpenedAgrees | src/bac.c:800-838 | Chip and terminal open the same data objects to the same data |
| ChipCrypto.DesKeyIsKdf | src/bac.c:185-199 | The derived key is the first sixteen bytes of the hash over seed and purpose, each with odd parity |
| Sessions.CollectObjects | src/bac.c:754-780 | The cursor loop finds exactly the accepted parts of a response, or refuses where the walk does |
| Sessions.Assemble | src/bac.c:722-741 | Appending header, Lc, objects, MAC and Le gives the protected command, Lc cut to a byte |
| Sessions.BacSession.Protect | src/bac.c:651-742 | Result and counter in place are those of the specification, for every data length, Le and library fault |
| Sessions.BacSession.Unprotect | src/bac.c:744-841 | Verdict and counter in place are those of the specification, for every response and library fault |
| Sessions.PaceSession.Protect | src/pace.c:817-928 | The same for AES, whose counter moves before the encryption |
| Sessions.PaceSession.Unprotect | src/pace.c:930-1030 | The same for AES |
| CommandTheorems.LcIsBodyLength | src/bac.c:663-741 | Over the whole guarded range Lc equals the length of the body and is never cut |
| CommandTheorems.LongDataObject87IsMisread | src/bac.c:642-689 | One byte more and the length byte is read as the long form of another length |
| CommandTheorems.RefusedCommandKeepsStepIff | src/pace.c:827-895 | A command that could not be built leaves the counter where it was exactly if it was refused for its length or, after BAC, for a failed encryption |
| ResponseTheorems.MacInputDeterminesParts | src/bac.c:783-797 | Two responses with one MAC input have the same DO'87' and DO'99' |
| ResponseTheorems.CounterMovesIffStructureAccepted | src/bac.c:761-781 | The counter moves by one exactly when the data objects were accepted, whatever fails later |
| ResponseTheorems.TrailingStatusAccepted | src/bac.c:761-780 | Two bytes after the objects leave the structure accepted exactly when they form an empty object that replaces neither DO'99' nor DO'8E' |
| FileReadTheorems.ExchangeCarries | src/nfcd_client.c:1907-1933 | One READ BINARY and its answer move both counters by two and carry the chip's reply unchanged |
| FileReadTheorems.FullReplies | src/nfcd_client.c:2025-2062 | With full answers a read takes 1 + ceil((T - 4) / 255) commands |
| FileReadTheorems.PlainOffsetsIff | src/nfcd_client.c:2170-2195 | With full answers every offset asked at stays below 0x8000 if and only if T <= 32899 |
| FileReadTheorems.LargestFiles | src/nfcd_client.c:2011-2019 | A total is taken exactly up to 2048 bytes for EF.DG1 and 65536 for EF.DG2 |
| FileReaders.FileReader.ReadAt | src/nfcd_client.c:1966-1975 | Sends READ BINARY at an offset cut to 16 bits and advances the session's counter as specified |
| FileReaders.FileReader.ReadMore | src/nfcd_client.c:2025-2062 | Asks for the next chunk or completes, in unsigned 64-bit arithmetic, as specified |
| FileReaders.FileReader.Unwrap | src/nfcd_client.c:1907-1933 | Dispatches to the session in use and keeps the other one |
| FileReaders.FileReader.RestReady | src/nfcd_client.c:2123-2195 | A whole callback: unwrap, append, learn the total, ask for more |
| FileReaders.FileReader.Fetch | src/nfcd_client.c:1977-2062 | The loop of callbacks against a chip delivers exactly the declared bytes, in the counted commands, whatever the chunks |
| KeyDerivation.SetKeyParity | src/bac.c:165-176 | In place, every byte gets odd parity |
| KeyDerivation.ParityIsOdd | src/bac.c:165-176 | The adjusted byte has an odd number of ones and the same seven key bits |
| KeyDerivation.DeriveKey | src/bac.c:185-199 | The key is the parity-adjusted front of SHA-1 over seed and 32-bit counter |
| BasicAccessControl.UnsealedIffSealed | src/bac.c:322-399 | A 40-byte block unseals to s if and only if it is s sealed under the same keys |
| BasicAccessControl.HoldersAgree | src/bac.c:322-399 | What the terminal seals and unseals is what anybody with the keys seals and unseals |
| BasicAccessControl.SessionsAgree | src/bac.c:383-398 | The session the terminal derives is the chip's: keys from the xor of both halves, counter from the ends of both challenges |
| BasicAccessControl.Handshake.BuildMutualAuthenticate | src/bac.c:322-354 | Fails exactly when the random source or the library fails, else sends the sealed challenge and remembers it |
| BasicAccessControl.Handshake.ProcessResponse | src/bac.c:356-399 | Accepts exactly the authentic responses, sets keys and counter from both halves, and on rejection leaves the session alone |
| Pace.SearchIn7C | src/pace.c:344-369 | The search loop finds the first object with the tag inside the 7C template, or nothing on a bad length |
| Pace.FindsWrapped | src/pace.c:329-369 | What is wrapped in 7C is found again, whatever follows the template |
| Pace.TokenInputIsInjective | src/pace.c:712-730 | Two token inputs are equal if and only if protocol and key are |
| Pace.BuildMseSetAt | src/pace.c:373-387 | Names the protocol and whether the password is the card access number |
| Pace.Curve.TimesAdds | src/pace.c:655-710 | Multiplying by a scalar is repeated addition |
| Pace.FindTagPasses | src/pace.c:344-369 | Objects with other tags in front are passed over, and the first with the tag is taken |
| Pace.Curve.TimesCommutes | src/pace.c:655-710 | Over any commutative group it does not matter which scalar is applied first |
| Pace.Curve.MappingAgrees | src/pace.c:563-630 | Both sides of generic mapping reach the same generator sG + H |
| Pace.PaceExchange.ProcessNonceResponse | src/pace.c:480-495 | Accepts exactly an aligned encrypted nonce of 1 to 64 bytes and stores its decryption |
| Pace.PaceExchange.BuildMapNonce | src/pace.c:539-561 | Sends the public mapping key of the fresh scalar |
| Pace.PaceExchange.ProcessMapNonceResponse | src/pace.c:563-630 | Stores the mapped generator exactly for a valid point of the right length |
| Pace.PaceExchange.BuildKeyAgreement | src/pace.c:632-653 | Sends the public agreement key over the mapped generator |
| Pace.PaceExchange.ProcessKeyAgreementResponse | src/pace.c:655-710 | Sets keys from the shared x coordinate and a zero counter; refuses the neutral point and leaves the session alone then |
| Pace.PaceExchange.BuildMutualAuth | src/pace.c:744-765 | Sends the token over the chip's key |
| Pace.PaceExchange.VerifyMutualAuthResponse | src/pace.c:767-781 | Accepts exactly the token over the terminal's own key |
| PaceTheorems.RunNonce | src/pace.c:373-495 | MSE: SET AT and round 1: the chip is told its own protocol and the terminal decrypts its nonce |
| PaceTheorems.TokenInputIsPublicKeyObject | src/pace.c:712-730 | The token input is the data object 7F49 whose walk gives exactly 06 with the protocol and 86 with the key |
| PaceTheorems.PointsAgree | src/pace.c:506-522 | Terminal and chip take exactly the same strings for points |
| PaceTheorems.KeysAgree | src/pace.c:190-213 | The derived key is the front of SHA-1 or SHA-256 over secret and purpose, as the chip derives it |
| PaceTheorems.BothEndsAgree | src/pace.c:563-710 | Same mapped generator and same shared point at both ends, for every nonce and all four scalars |
| PaceTheorems.RunMapping | src/pace.c:480-630 | Rounds 1 and 2 against the chip: same nonce, same mapped generator |
| PaceTheorems.RunKeyAgreement | src/pace.c:632-710 | Round 3 against the chip: same keys, zero counter |
| PaceTheorems.RunTokens | src/pace.c:712-781 | Round 4: each side's token verifies at the other |
| Mrz.ComputeCheckDigit | src/bac.c:204-229 | The weighted loop computes the 7-3-1 check digit and refuses exactly the fields with a foreign character |
| Mrz.DigitSubstitutionIsNoticed | src/bac.c:215-229 | In a digit field of any length every single wrong digit changes the check digit |
| Mrz.MrzSha1 | src/bac.c:240-280 | Hashes the filled, upper-case number and both dates with their check digits, and refuses exactly absent, misfit or foreign fields |
| Mrz.DeriveStaticKeys | src/bac.c:282-297 | Keys exist exactly for usable fields and come from the first 16 digest bytes with counters 1 and 2 |
| MrzParsing.ParseDg1 | src/bac.c:449-472 | The cursor walk returns the zone of a well-formed EF.DG1 and nothing otherwise |
| MrzParsing.Dg1RoundTrip | src/bac.c:449-472 | Every zone laid out as EF.DG1 is parsed back, whatever follows |
| MrzParsing.TrimCopy | src/bac.c:479-487 | Copies up to the first filler, the length or the capacity |
| MrzParsing.DecodeName | src/bac.c:492-517 | The separator loop and the copies yield surname and given names, each cut to its buffer |
| MrzParsing.NameRoundTrip | src/bac.c:492-517 | Names with single inner spaces that fit field and buffers come back as they were printed |
| MrzParsing.ParseFields | src/bac.c:522-583 | Every field and check flag comes from its TD1 or TD3 position; other lengths are refused |
| ZoneTheorems.DigitsAgree | src/bac.c:204-229 | The computed check digit is the one of Doc 9303-3: values by place in the alphabet, weights 7, 3, 1 over and over |
| CardAccess.ParseCardAccess | src/pace.c:86-156 | Of any file, broken or cut off, the first max_entries PACE entries of the sequences that fit in the set at its front |
| CardAccess.WellFormedFile | src/pace.c:86-156 | Of a well-formed file with anything behind it these are the entries of its SecurityInfos in file order |
| CardAccess.PickPaceEntry | src/nfcd_client.c:1530-1585 | Exactly the first entry with a supported protocol and curve is tried, and what was found is named when there is none |
| CardAccessRead.CardAccessReader.RestReady | src/nfcd_client.c:1587-1658 | The callback appends, learns the total and asks for more, as specified |
| CardAccessRead.Drive | src/nfcd_client.c:1587-1641 | Against any counterpart whatever the loop ends after one command, or at most as many as bytes were missing from the declared total, which is at most 2048 |
| CardAccessRead.FileArrives | src/nfcd_client.c:1488-1641 | From a chip that serves the file, 1 + ceil((T - 256) / 255) commands bring the whole data object |
| CardAccessRead.SecurityInfosArrive | src/nfcd_client.c:1587-1658 | What arrives begins with the whole set of SecurityInfos, so the parser sees each of them |
| CardAccessRead.FetchFile | src/nfcd_client.c:1488-1658 | The loop of callbacks ends and returns the file of the specified run |
| CardAccessRead.SetUpPace | src/nfcd_client.c:1488-1658 | Against any counterpart SELECT, fetch loop, parser and choice give an entry exactly when the selection was accepted and a file was read, from its first eight entries |
| PaceAnnouncements.AnnouncementIsRead | src/pace.c:107-150 | A PACEInfo written after section 9.2.1 of Doc 9303-11 is read as its protocol and domain |
| PaceAnnouncements.SupportedIff | src/pace.c:60-79 | Exactly two protocols and three domains are run, with their key lengths and curves |
| CardAccessRead.RefusalEndsFetch | src/nfcd_client.c:1587-1612 | A response without 90 00 or without data ends the read |
| CardAccessRead.LargestCardAccess | src/nfcd_client.c:1615-1629 | A total is taken exactly up to 2048 bytes |
| PassportTerminals.PassportTerminal.ReadDocument | src/nfcd_client.c:1860-2195 | The callbacks, run against a document, end with the zone and the declared photo bytes after exactly the counted rounds, the counter twice as far |
| DialogueTheorems.SelectIsAnswered | src/nfcd_client.c:1935-1964 | A SELECT under secure messaging names the right application or file at the document, is answered with success exactly if it is there, and moves both counters by two |
| DialogueTheorems.DialogueIsRun | src/nfcd_client.c:1977-2195 | A dialogue that has begun to read a file is the run of the read loop on it, answer for answer |
| DialogueTheorems.WithoutDg1TheReadFails | src/nfcd_client.c:1935-1975 | A document without EF.DG1 ends the read in failure |
| DialogueTheorems.ZoneIsKept | src/nfcd_client.c:2069-2195 | Once the zone is known every response leads to another command or to a success with it, and no byte of EF.DG2 is lost |
| DialogueTheorems.ReadWithoutPhoto | src/nfcd_client.c:2069-2121 | A document without EF.DG2 is read to its zone even when the photo is asked for |
| DialogueTheorems.WithoutDg2TheZoneRemains | src/nfcd_client.c:2095-2109 | The refused selection of EF.DG2 ends the read in success with the zone alone |
| DialogueTheorems.StatusDecides | src/nfcd_client.c:1935-1964 | After a SELECT the terminal goes on exactly if the status is 90 00, whatever else comes |
| DialogueTheorems.ChunkNeedsStatusAndData | src/nfcd_client.c:1977-2022 | A chunk without 90 00 or without data ends the read of the file and changes nothing that was read |
| PassportTerminals.PassportTerminal.Select | src/nfcd_client.c:1935-1964 | Sends SELECT through the session in use and waits at the next stage, as specified |
| PassportTerminals.PassportTerminal.SelectReady | src/nfcd_client.c:1935-1975 | The answer to a SELECT: the next SELECT or the first READ BINARY, or the end |
| PassportTerminals.PassportTerminal.Dg1Ready | src/nfcd_client.c:1977-2062 | A chunk of EF.DG1: the next one, or the parsed zone and what follows it |
| PassportTerminals.PassportTerminal.Dg2Ready | src/nfcd_client.c:2123-2195 | A chunk of EF.DG2; every end is a success |
| EndToEnd.BacOpens | src/nfcd_client.c:1358-1473 | With the document's keys SELECT, GET CHALLENGE and MUTUAL AUTHENTICATE end with one session at both ends |
| EndToEnd.RefusalEndsBac | src/nfcd_client.c:1358-1473 | Any answer in the clear without 90 00 or of another length ends the attempt |
| MifareTheorems.SectorsPartitionBlocks | src/nfcd_client.c:450-458 | Every block from 0 to 255 lies in exactly one of the forty sectors |
| MifareTheorems.StoreThenLookup | src/nfcd_client.c:460-491 | A stored key is found for that tag and sector and nothing else changes; without a UID nothing is stored |
| MifareTheorems.SweepKeepsShape | src/nfcd_client.c:526-783 | Whatever the tag answers, reports have rising sector numbers with 1 to block-count blocks each, and every snapshot is a prefix |
| MifareTheorems.StepSpends | src/nfcd_client.c:553-783 | Every answer strictly lowers the budget of transceives |
| MifareSweeps.SectorSweep.NextSector | src/nfcd_client.c:526-551 | Publishes, then starts the sector with the cached key or the first default, as the machine does |
| MifareSweeps.SectorSweep.TryCachedKey | src/nfcd_client.c:637-649 | Uses a remembered key exactly when there is one |
| MifareSweeps.SectorSweep.TryKey | src/nfcd_client.c:651-672 | The next default key, or the next sector |
| MifareSweeps.SectorSweep.AuthReady | src/nfcd_client.c:553-604 | One authentication answer is one step of the machine |
| MifareSweeps.SectorSweep.BlockReady | src/nfcd_client.c:674-740 | One block answer is one step of the machine |
| MifareSweeps.SectorSweep.SectorDone | src/nfcd_client.c:762-783 | The report is filed, the key remembered, the next sector started |
| MifareSweeps.SectorSweep.Command | src/nfcd_client.c:606-760 | The twelve bytes of an authentication with key A, or a READ of the next block |
| MifareCards.ExchangeIsStep | src/nfcd_client.c:606-760 | The card takes each command for what the sweep means by it, and stays logged in for the blocks that are read |
| MifareCache.CacheHoldsDefaults | src/nfcd_client.c:476-491 | A sweep over a cache of default keys leaves only default keys |
| MifareCache.ReachableCachesHoldDefaults | src/nfcd_client.c:476-491 | After any series of sweeps, cut short anywhere, every cached key is one of the four defaults |
| NfcdClients.NfcdClient.TagReadFree | src/nfcd_client.c:380-408 | A read leaves the live ones once and for all |
| NfcdClients.NfcdClient.TagReadAbort | src/nfcd_client.c:410-417 | The read in progress loses its client and is cancelled, but stays live until its call completes |
| NfcdClients.NfcdClient.TagReadFinish | src/nfcd_client.c:419-443 | Publishes only for a read that still has its client |
| NfcdClients.NfcdClient.SetCurrentTag | src/nfcd_client.c:2282-2317 | A changed path orphans the read, drops what was published, notifies once and starts over; the same path changes nothing |
| NfcdClients.NfcdClient.TagReadStart | src/nfcd_client.c:1080-1094 | One fresh read of the current path with one outstanding call |
| NfcdClients.NfcdClient.TagProxyReady | src/nfcd_client.c:1052-1078 | An orphan or a failure frees the read, else one next call |
| NfcdClients.NfcdClient.GetAllReady | src/nfcd_client.c:971-1050 | The tag's data are taken over and the sweep, the first record or the raw contents asked for; a failure frees the read |
| NfcdClients.NfcdClient.NdefProxyReady | src/nfcd_client.c:833-873 | A record's proxy: read it, or on failure go on to the next record, the raw contents or the end |
| NfcdClients.NfcdClient.NdefRecordReady | src/nfcd_client.c:785-831 | One record: shown, and the next one asked for |
| NfcdClients.NfcdClient.TagReadNextRecord | src/nfcd_client.c:955-969 | The next record's proxy is asked for, or after the last record the raw contents |
| NfcdClients.NfcdClient.TagReadRawData | src/nfcd_client.c:942-953 | A Type 2 tag's raw contents are asked for, any other read ends with its records published |
| NfcdClients.NfcdClient.RawProxyReady | src/nfcd_client.c:910-940 | The raw contents are asked for exactly when there is a proxy and the read is no orphan |
| NfcdClients.NfcdClient.RawDataReady | src/nfcd_client.c:875-908 | Raw contents end the read with what there is |
| NfcdClients.NfcdClient.MifareAuthReady | src/nfcd_client.c:553-604 | A sweep's authentication callback inside a read that may be orphaned; a new sector shows the sectors so far |
| NfcdClients.NfcdClient.MifareBlockReady | src/nfcd_client.c:674-740 | A sweep's block callback; the sectors so far are shown with every new sector and at the end, only for the current tag |
| NfcdClients.NfcdClient.Free | src/nfcd_client.c:2727-2774 | Teardown leaves no read with a client |
| NfcdClients.CompleteOrphan | src/nfcd_client.c:380-408 | Any completion frees an orphan and publishes nothing |
| NfcdClients.CompleteReading | src/nfcd_client.c:553-1078 | Any completion of the read in progress strictly lowers its rank or its remaining steps, or frees it; no other read changes |
| PassportReads.PassportClient.ReadPassport | src/nfcd_client.c:2200-2280 | Refuses at once while a read is in progress or without a usable tag, else dispatches one read with the protocol and photo flag asked for |
| PassportReads.PassportClient.Finish | src/nfcd_client.c:1163-1223 | Calls back once, releases the tag once if it was acquired, and gives the read back |
| PassportReads.PassportClient.Abort | src/nfcd_client.c:1274-1281 | The read in progress loses its client but is not called back yet |
| PassportReads.PassportClient.TagProxyReady | src/nfcd_client.c:1306-1326 | A failure finishes the read without a release |
| PassportReads.PassportClient.AcquireReady | src/nfcd_client.c:1328-1356 | From here on the tag is to be released |
| PassportReads.PassportClient.Answered | src/nfcd_client.c:1297-1304 | A failure finishes the read, else exactly one next call with the state it needs |
| PassportReads.PassportClient.BacReady | src/nfcd_client.c:1358-1473 | Each BAC step names the next and what it leaves for it: challenge, then session, then EF.DG1 |
| PassportReads.PassportClient.PaceSetupReady | src/nfcd_client.c:1488-1694 | EF.CardAccess is read, then the exchange takes the place of the password, once, then the protocol is selected |
| PassportReads.PassportClient.PaceRoundReady | src/nfcd_client.c:1696-1813 | Each PACE round names the next one and what it leaves for it |
| PassportReads.PassportClient.PaceFinalReady | src/nfcd_client.c:1815-1905 | The token round frees the exchange and selects the application, and that selects EF.DG1 |
| PassportReads.PassportClient.SelectDg1Ready | src/nfcd_client.c:1935-1975 | Reading EF.DG1 starts under the session |
| PassportReads.PassportClient.Dg1Ready | src/nfcd_client.c:1977-2062 | The outcome turns to success exactly when DG1 has arrived and parsed |
| PassportReads.PassportClient.SelectDg2Ready | src/nfcd_client.c:2083-2121 | After DG1 every failure still ends in success |
| PassportReads.PassportClient.Dg2Ready | src/nfcd_client.c:2123-2195 | The same while the photo is read |
| Ndef.DecodedPayloadsAreShorter | src/ndef.c:177-359 | Every payload is at least three bytes shorter than its message, so the mutual recursion ends |
| NdefParser.ReadFields | src/ndef.c:301-335 | The cursor reads header, lengths and ID flag, and fails exactly on a cut-off head |
| NdefParser.TakeRecord | src/ndef.c:301-349 | The cursor cuts out type, ID and payload |
| NdefParser.RecordJsonOf | src/ndef.c:177-290 | A record is shown by type name format and type, Smart Posters through the message parser |
| NdefParser.MessageJsonOf | src/ndef.c:292-359 | The loop renders every record up to the end flag or the end of the bytes, and gives nothing for a malformed message |
| NdefTheorems.ParseInvertsPrint | src/ndef.c:301-349 | A printed record, short or long, with or without ID, is parsed back with its end flag and size |
| NdefTheorems.CutRecordIsRefused | src/ndef.c:301-337 | Cut off anywhere, a printed record is refused |
| NdefTheorems.NestingIsBounded | src/ndef.c:234-242 | Every level of Smart Posters takes at least five bytes of the message |
| NdefContents.ItemIsShown | src/ndef.c:119-290 | A link, text, wide text, poster, attachment, address or foreign record is shown with its content, its type and itself |
| NdefContents.PosterShowsItsRecords | src/ndef.c:234-242 | A Smart Poster shows the records of the message in its payload, each as it would be shown by itself |
| NdefContents.PrefixesAgree | src/ndef.c:32-70 | The table of abbreviations is the one of the URI definition |
| NdefContents.BuiltUriIsLink | src/ndef.c:400-434 | A built URI record is the link of the definition whose abbreviation and rest spell the URI |
| NdefContents.BuiltTextIsNote | src/ndef.c:436-467 | A built text record is the note of the definition |
| NdefWriting.BuildSingleRecord | src/ndef.c:362-398 | Fails exactly for payloads over 255 bytes, else prints one short record with both message flags |
| NdefWriting.LongestPrefix | src/ndef.c:410-420 | The loop finds an abbreviation that fits and is no shorter than any other that fits |
| NdefWriting.BuildUri | src/ndef.c:400-434 | The record holds the longest abbreviation and the rest of the URI |
| NdefWriting.UriRefusedIffNoneFits | src/ndef.c:400-434 | The payload is the shortest of all abbreviations, so a URI is refused exactly when none makes it fit |
| NdefWriting.UriPayloadDecodes | src/ndef.c:119-132 | Whatever abbreviation is used, the decoder puts it back |
| NdefWriting.BuildText | src/ndef.c:436-467 | Fails exactly without text, for a language over 63 bytes or a payload over 255 |
| NdefWriting.TextPayloadDecodes | src/ndef.c:139-175 | Text and language come back unchanged |
| NdefWriting.WrapType2 | src/ndef.c:721-751 | Builds the TLV in its one- or three-byte form |
| NdefWriting.EnglishIsTheDefault | src/ndef.c:436-467 | Without a language, or with an empty one, "en" is written |
| HexText.BytesToHex | src/ndef.c:72-89 | The loop writes two digits a byte |
| HexText.HexToBytes | src/ndef.c:690-719 | The loop refuses empty, odd and malformed text and nothing else |
| HexText.BadPairIsRefused | src/ndef.c:703-712 | One foreign character anywhere refuses the whole text |
| HexText.FromHexInvertsToHex | src/ndef.c:72-89 | Bytes written as digits are read back |
| HexText.ToHexInvertsFromHex | src/ndef.c:690-719 | Accepted text is written back in lower case |

## Left out

- The luna-service2 bus, request marshalling and JSON text (src/nfc_service.c, src/luna_service_utils.c, src/main.c): what is shown is a datatype.
- D-Bus proxies and GLib memory: an asynchronous call is a pending stage whose result is left open; the 32-bit length limit of GByteArray is not modelled.
- The insides of the crypto library: ciphers, hashes, CMAC, curve arithmetic and random numbers are parameters with their laws.
- The EF.DG2 photo: the search for image magic bytes, JPEG 2000 decoding and BMP output add only index arithmetic.
- Card emulation profiles, tag write and tag lock chains, and the daemon, adapter and settings signals, which are shorter forms of the lifecycles above.
- vCard, Wi-Fi and Bluetooth records: string formatting and fixed concatenations over the same single-record builder.
- UTF-16 conversion and UTF-8 validation are functions of a text library parameter.
- Null data with a nonzero length, which no caller passes.
- PassportReads.Settle: takes the number of further chunks as given, since a chip may answer with empty chunks for as long as it likes; FileReadTheorems.FileArrivesIntact bounds the chunks of an honest chip and DoneIffSumHitsTotal says when any chunks end the loop.
- A chip that answers READ BINARY with more bytes than asked is covered by DoneIffSumHitsTotal and the session theorems, not by the whole-run theorems.
- PassportReads.PassportClient.Answered: states which handshake values a step relies on, not what they are; their values are the subject of BasicAccessControl and Pace.
- CardAccess.ParseCardAccess: takes the content of each sequence in the set to be a row of data objects, because the code reads past it otherwise: the lengths inside are not checked against it. Everything around the sequences may be broken.
- FileReadTheorems.FileArrivesIntact: is for reads at plain offsets and a first answer that tells the total; ReadCompletesIff is the converse, for chips that know no other files by short identifier or files below 32768 bytes.
- MrzParsing.NameRoundTrip: is for names that fit; the zone has no mark for a truncated name.
- DialogueTheorems.WholeRead: is for a document that carries both files asked for and a library without faults; ReadWithoutPhoto, WithoutDg1TheReadFails, StatusDecides and OutcomeIsTold are about the others.
- NfcdClients.Settle: counts completions while no other tag comes; a tag change orphans the read, and its next completion frees it.
- The PACE password: the bytes of a card access number are a parameter, and no caller uses the derivation from the zone.
- ZoneTheorems.PrintedZoneIsRead: is for documents whose number fits its field and has no filler inside, with full dates; KeysMatchZoneIff covers every zone.
