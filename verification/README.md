# AD7616 SPI decoder: a Dafny model

This project models the AD7616 protocol decoder in `ad7616/pd.py`. The
decoder sits on top of an SPI decoder and receives its packets one at a time.
For each `BITS` packet it takes the MISO bit list, walks it in reverse, ORs
each bit into the low end of one integer (`data`) and shifts that integer
left by one. It keeps the start sample of the first bit packet of the frame
(`ss`) and the end sample of the latest one (`es`). On a `CS-CHANGE` packet
from a known low to high, it shifts `data` right by one to undo the extra
shift. It then puts one voltage annotation, `data * 5 / 32767`, spanning
`ss..es`, and clears `data` and `ss`. The code is scaled for a 5 V full
scale at 32767 but read as unsigned. Codes 32768 to 65535 therefore report
between 5 V and about 10 V, and no code reports a negative voltage.

Two files:

- `bitfold.dfy` (module `BitFold`) holds the arithmetic:
  - `BitOr` is Python's `|` on non-negative integers.
  - `Acc` is the fold that the accumulation loop computes.
  - `Val` and `Encode` are the big-endian reading and writing of a bit string.
  - `Reverse` is `reversed`.
  - Lemmas relate these to each other.
- `decoder.dfy` (module `Ad7616`) holds the decoder itself:
  - the packet, annotation and state datatypes;
  - `Next`, what handling one packet does to the state and the output log;
  - `Run`, handling a sequence of packets and counting the ones that fail;
  - the class `Decoder`, whose fields `data`, `ss`, `es` and `out` the methods
    update in place. `Decode` keeps the source's reverse loop over the MISO
    list and is proved to do what `Next` says. `out` stands for the
    annotations handed to `put`;
  - lemmas about `Next` and `Run`: edge detection, a state invariant
    (evenness), composition, whole frames with other packets interleaved,
    fresh frames and the round trip.

`reset` sets `data` and `ss` but never `es`. The model therefore holds `es`
as an `Option`. A firing chip-select edge before any bit packet has set it
reads an attribute that does not exist. In Python that raises an error after
`data >>= 1` has already run. The model returns status `EndUnset` with
`data` halved and nothing emitted. `Run` counts the failure and carries on
with the next packet. On any state a decoder can reach, such a failure
changes nothing, because `data` is still 0 then.

A later version of this decoder also reads MOSI and decodes control
registers. This file does neither.

## Model

| member | source | states |
|---|---|---|
| `BitFold.BitOr` | ad7616/pd.py:63 | the OR of two non-negative integers is at least each operand and at most their sum |
| `BitFold.BitOrZero` | ad7616/pd.py:63 | OR with 0 leaves an integer unchanged |
| `BitFold.BitOrBit` | ad7616/pd.py:63 | OR-ing one bit into an even value adds the bit; an odd value is unchanged |
| `BitFold.Reverse` | ad7616/pd.py:62 | definition of `reversed`; its contract keeps the length, and `ReverseAppend`, `ReverseReverse` and `ReverseSuffix` characterise it |
| `BitFold.ReverseAppend` | ad7616/pd.py:62 | reversing a concatenation reverses the order of its parts |
| `BitFold.ReverseReverse` | ad7616/pd.py:62 | reversing twice gives back the list |
| `BitFold.ReverseSuffix` | ad7616/pd.py:62 | walking the list from the end, each step appends the next element to the reversed suffix |
| `BitFold.Acc` | ad7616/pd.py:62-64 | definition: the fold the accumulation loop computes, one OR then one left shift per bit; characterised by `AccSnoc`, `AccAppend`, `AccScaled`, `AccFromZero` and `AccEven` |
| `BitFold.AccSnoc` | ad7616/pd.py:63-64 | one more bit is one OR then one left shift |
| `BitFold.AccAppend` | ad7616/pd.py:62-64 | folding two bit strings in turn equals one fold over their concatenation |
| `BitFold.AccScaled` | ad7616/pd.py:62-64 | from an even value 2v the fold gives 2(v * 2^k + value of the k bits): earlier bits are higher-order, with one trailing extra zero |
| `BitFold.AccFromZero` | ad7616/pd.py:62-64 | from 0 the fold is twice the big-endian value of the bits, even, below 2^(k+1); halving it gives that value, below 2^k |
| `BitFold.AccEven` | ad7616/pd.py:63-64 | after at least one step, or from an even start, the accumulator is even |
| `BitFold.Val` | ad7616/pd.py:51-64 | the big-endian value of k bits is below 2^k |
| `BitFold.Encode` | ad7616/pd.py:62-64 | the k-digit encoding of a code has exactly k bits |
| `BitFold.ValEncode` | ad7616/pd.py:62-64 | decoding the k-digit encoding of n < 2^k gives n |
| `BitFold.EncodeVal` | ad7616/pd.py:62-64 | encoding the decoded value of a bit string at its width gives the string back |
| `Ad7616.Initial` | ad7616/pd.py:35-40 | definition: the state after construction (data 0, no frame start, no frame end, empty log); `EdgeBeforeAnyBits` and `RunFromInitialEven` characterise it |
| `Ad7616.Volts` | ad7616/pd.py:52-53 | the voltage is non-negative, 0 exactly for code 0, 5 for 32767, below 5 for smaller codes and above 5 for larger ones |
| `Ad7616.Fires` | ad7616/pd.py:50 | definition: a chip-select change from a known 0 to 1; `OnlyRisingEdgeFires` characterises it |
| `Ad7616.Next` | ad7616/pd.py:45-64 | definition of one packet's effect on the state, the log and the status; characterised by `OnlyRisingEdgeFires`, `FireEmitsOne`, `EdgeBeforeAnyBits`, `NextKeepsWellFormed`, `TwoPacketsCompose` and `FreshFrameAfterFire` |
| `Ad7616.Run` | ad7616/pd.py:45-64 | definition: packets handled in order, counting failures and going on after each; characterised by `RunAppend`, `NoFireRun`, `FrameDecodes` and `EarlyEdgeThenFrame` |
| `Ad7616.Decoder.constructor` | ad7616/pd.py:35-40 | a new decoder has data 0, no frame start, no frame end and an empty output log |
| `Ad7616.Decoder.Reset` | ad7616/pd.py:38-40 | clears data and the frame start; the frame end and the output are untouched |
| `Ad7616.Decoder.Decode` | ad7616/pd.py:45-64 | the new fields, output log and status are exactly what `Next` gives for the old state and the packet; the bit loop keeps data equal to the fold over the reversed suffix done so far |
| `Ad7616.OnlyRisingEdgeFires` | ad7616/pd.py:48-56 | a chip-select change leaves state, output and status unchanged if and only if it is not a change from a known 0 to 1 |
| `Ad7616.FireEmitsOne` | ad7616/pd.py:51-56 | a firing edge appends exactly one class-0 annotation spanning (ss, es) with voltage (data >> 1) * 5 / 32767, and leaves data 0 and no frame start |
| `Ad7616.NextKeepsWellFormed` | ad7616/pd.py:38-64 | every packet keeps data even, and keeps data and the frame start clear while the frame end is unset; a failing packet changes nothing |
| `Ad7616.RunKeepsWellFormed` | ad7616/pd.py:38-64 | any sequence of packets keeps the decoder well formed |
| `Ad7616.RunFromInitialEven` | ad7616/pd.py:38-64 | after any packets a new decoder's data is even, so `data >>= 1` drops no set bit |
| `Ad7616.EdgeBeforeAnyBits` | ad7616/pd.py:38-54 | a firing edge on a new decoder reads the unset frame end: it fails, emits nothing and leaves the decoder as new |
| `Ad7616.TwoPacketsCompose` | ad7616/pd.py:57-64 | two bit packets b1 then b2 leave data as one fold over reversed(b1) ++ reversed(b2), which is reversed(b2 ++ b1); the frame start is the first packet's unless already set, and the frame end is the second packet's |
| `Ad7616.FreshFrameAfterFire` | ad7616/pd.py:55-61 | after a firing edge the next bit packet's own start becomes the frame start, and data holds only that packet's bits |
| `Ad7616.RunAppend` | ad7616/pd.py:45-64 | handling two packet sequences in turn equals handling their concatenation, with the failure counts added |
| `Ad7616.BitsSeen` | ad7616/pd.py:57-61 | a sequence has a first bit packet exactly when it has a last one |
| `Ad7616.NoFireRun` | ad7616/pd.py:45-64 | across any packets but a firing edge: data folds every bit in arrival order; the frame start is kept, or else taken from the first bit packet, and never overwritten; the frame end is the last bit packet's; nothing is emitted and nothing fails |
| `Ad7616.FrameDecodes` | ad7616/pd.py:48-64 | from a cleared state, packets with at least one bit packet and no firing edge, then a rising edge, emit exactly one annotation from the first bit packet's start to the last one's end, with the voltage of the big-endian value of the received bits; data and the frame start end cleared |
| `Ad7616.EarlyEdgeThenFrame` | ad7616/pd.py:48-64 | a capture opening with a rising edge fails once, and the frame after it still emits its one annotation |
| `Ad7616.WordRoundTrip` | ad7616/pd.py:51-64 | a k-bit code n sent as the list whose reverse is its binary digits comes back as n after the finalising shift, reported as Volts(n) |
| `Ad7616.SixteenBitCodeFits` | ad7616/pd.py:51-64 | sixteen received bits decode to at most 65535, reported as at most Volts(65535) |

## Left out

- The sigrok framework is not modelled: the decoder base class, the class metadata (ad7616/pd.py:22-33), `start` and `register` (ad7616/pd.py:42-43), and what `put` does beyond appending to the output log. An annotation whose start is unset (a firing edge after a frame with no bits) is logged with no start. What the framework does with such a start is not modelled.
- Floating-point division and the `'%.3fV'` text are left out. The voltage is the exact real `data * 5 / 32767`.
- Each bit record carries more than its first element. Only `bit[0]` is modelled, and it is taken to be 0 or 1 (the `Bit` type). The upstream SPI framing is not checked.
- The MOSI bit list and the other fields of a packet are not read by the source, so the model leaves them out. `DATA` and `TRANSFER` packets fall through both branches and are modelled as `Other`, which changes nothing. The sample numbers of a `CS-CHANGE` packet are unused, as in the source.
- The error a failing packet raises is only counted by `Run`. What the framework does with it, such as logging, is not modelled.
