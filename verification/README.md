# Beacon scanner: a verified model

The repository scans Bluetooth Low Energy advertisements for beacons, averages what it hears in time windows,
hands the averages to a publishing thread, encodes them for a broker, and shows a summary on a small display.
This project models that behaviour in Dafny and proves what the code is meant to keep. It has six parts.

- **Median filter** (`Ordering`, `MedianFilter`). Huang's running histogram with its median iterator, as a class
  over the same fields, against the direct method that sorts every window. The two are proved equal on every
  input and every valid window, so the test program's comparison always counts zero differences.
- **Display** (`CircleGeometry`, `LineGeometry`, `Framebuffer`, `PlottedPoints`, `CircleRadii`, `LineSigns`,
  `TextCells`, `TextPictures`, `Lcd`). The packed 504-octet image and the drawing operations on it, with every octet assignment rounded as the C types round it.
  The reference for a circle is the rounded square root, for a line the rounded slope, for text a write into a
  ring of 84 cells.
- **Beacon decoders** (`Advertising`, `NativeDecoder`, `TextDecoder`, `HexColumns`, `DecoderAgreement`,
  `ReportFrames`, `ParserLogic`). The byte decoder of HCI frames and the text decoder of `hcidump -R` columns, proved to agree on
  every single-report frame whose beacon data comes last. Frames follow the LE Advertising Report event, section 7.7.65.2 of the Bluetooth
  Core Specification 4.2, Vol 2 Part E, and the AD structures of section 11 of Vol 3 Part C.
- **Windows and delivery** (`EventsWindow`, `EventBounds`, `EventRecords`, `Delivery`, `DeliveryProgress`, `Consumer`, `SMA`, `StatusInformation`). Events are cut
  into averaged buckets; a producer, a status monitor and the consumer thread are a machine whose steps
  interleave in every way the locks allow; the consumer numbers, publishes and batches.
- **Wire format** (`WireFormat`, `ByteBuffer`). The big-endian buffer with its positions, its reserved and
  back-patched lengths, and the round trips through it.
- **Command line** (`Switches`, `SwitchOrder`, `SwitchMeaning`, `CommandLine`, `SpacePrint`, `WrapEnds`). Combined switches against separate ones, and the
  word wrapping of usage messages.

`CArith` holds the fixed-width conversions and the division that truncates toward zero; `SeqFacts` holds facts
about sequences, `Wrappers` the optional value. Classes have the fields of the sources and their methods are proved against functions of the old
state; lemmas then say what those functions mean.

Where the code is not what its comments, its tests or a reader would expect, the model follows the code and the
exact condition is proved:

- `LCDgetPixel` reads the row mirrored within its group of eight (lcd/PCD8544.c:728), never the row that a write of
  the same coordinates sets (`Lcd.Display.GetPixel`).
- A circle uses signed octets. Its variables do not overflow exactly up to radius 64
  (`PlottedPoints.NoOctetWraps`). What is plotted is the circle exactly for radii up to 76, 82 and 83: at the other
  radii below 128 the decision variable wraps at the first step inwards, and from 128 on the loop is never entered
  (`CircleRadii.CircleDrawnExactly`). Around a centre on the screen, what is visible is right at all those radii
  (`CircleRadii.DrawableShown`), and from 128 on exactly if no axis point wraps onto the screen
  (`CircleRadii.HugeShown`).
- A line's error term is compared with zero after rounding to a signed octet. The line is the ideal one exactly
  if no error term on it is misread (`PlottedPoints.LineRunDrawsSegment`). With g the greatest common divisor of
  dx and dy and p the remainder of dx/2 by g, that is exactly if dy - p is at most 128 and dx - g + p - dy at most
  127 (`LineSigns.LineDrawnExactly`); the line from the origin to (254, 100) goes wrong
  (`PlottedPoints.LongLineMisread`).
- The line's loop ends exactly if its last major coordinate is below 255; otherwise its octet counter wraps for
  ever (`LineSigns.LineEndsExactly`).
- A minus sign in a length column can lead the text decoder's walk back, and "-1" holds it up where it is
  (`TextDecoder.MinusOneStays`, `TextDecoder.EndlessPacket`). It never ends exactly if it has not ended after as many steps as the packet has
  characters (`TextDecoder.EndlessExactly`); without a minus sign it always ends.
- The word wrapper gets to the end of its text, within bounds, exactly if it has room for a line, and for the later
  ones unless there are none; with no room at all only if the text is all spaces or a negative offset makes room.
  Otherwise it never gets there, or reads in front of the text (`WrapEnds.WrapEndsExactly`).
- The text decoder subtracts 256 from every signal strength octet, so the decoders agree on it exactly for octets
  from 0x80 on (`DecoderAgreement.DecodersAgree`). Padding (zero-length) structures before the manufacturer data
  turn out not to disturb either decoder.
- `fromByteMsg` reads message type, a heartbeat flag and the time where `toByteMsg` wrote the time and the message
  type (src/Beacon.cpp:74-77, src/Beacon.cpp:102-103). A beacon survives exactly when its time is its message
  type shifted by 32 bits (`WireFormat.RoundTripExact`).
- A bucket is dropped exactly if the status flag was up when it was in hand (src2/BeaconEventConsumer.cpp:69-75),
  and as many are dropped as publications are made with a bucket in hand (`Delivery.BucketsAccountedFor`); so none
  is lost exactly if no publication was (`Delivery.NoBucketLost`). A status is published exactly if it was copied
  while it was the newest (`Delivery.StatusesAccountedFor`); what is sent may have more names than were set, with
  empty values, which encoding the status for a broadcast adds (src2/StatusInformation.h:123-132).
  `Delivery.BucketDropped` and `Delivery.StatusSkipped`
  are runs that lose one.
- `reset` leaves the event count of an unfinished window (src2/EventsWindow.cpp:18-22); the model takes any
  leftover and carries it into the first bucket.
- An event may lie before the start of its bucket, if it arrives late or if the clock that restarts the windows is
  ahead of it; otherwise it does not (`EventBounds.StartedExactly`).
- A tagged record of fewer than three lines is completed by lines of what follows it (`ParserLogic.TwoLineRecord`,
  `ParserLogic.OneLineRecord`).
- A rest of text that is exactly as wide as the line is wrapped as if it were longer (`SpacePrint.WellCut`).

## Model

| member | source | states |
|---|---|---|
| Ordering.SelectByRank | tests/medfilter/medflt.h:244-245 | a value is the k-th of the sorted window exactly if at most k samples lie below it and more than k at or below it |
| Ordering.SortIsUnique | tests/medfilter/medflt.h:244-245 | any ascending permutation is the sorted window, so any sorting routine may stand for the library's |
| MedianFilter.WindowAt | tests/medfilter/medflt.h:229-243 | the clamped window holds the samples at its positions, and the end samples beyond either end |
| MedianFilter.ExchangeKeepsCounts | tests/medfilter/medflt.h:120-146 | decrementing the leaving and incrementing the entering sample turns an exact histogram of one window into an exact histogram of the next, and never erases the entry under the median iterator |
| MedianFilter.WindowSlides | tests/medfilter/medflt.h:185-188 | the clamped windows of neighbouring positions differ by one sample leaving at the front and one entering at the end |
| MedianFilter.OnMedianIsMedian | tests/medfilter/medflt.h:172-215 | if `dl` counts the samples below the iterator's key and `dl < middle <= dl + count`, that key is the middle of the sorted window |
| MedianFilter.Filter.SetWindowSize | tests/medfilter/medflt.h:89-94 | accepts exactly the odd sizes from three on and changes nothing otherwise |
| MedianFilter.Filter.FillHistogram | tests/medfilter/medflt.h:154-169 | the first histogram counts exactly the clamped window around sample 0 |
| MedianFilter.Filter.FindFirstMedian | tests/medfilter/medflt.h:172-180 | the first walk ends on the median entry without passing the end, with `dl` the number of samples below it |
| MedianFilter.Filter.Rebalance | tests/medfilter/medflt.h:197-212 | from any entry both walking loops terminate inside the map on the median entry, with `dl` right again |
| MedianFilter.Filter.Slide | tests/medfilter/medflt.h:189-213 | one exchange of samples keeps histogram, iterator and `dl` invariants for the next window |
| MedianFilter.Filter.FilterImpl | tests/medfilter/medflt.h:149-216 | output j is the middle element of the sorted clamped window around j, for every input and valid window |
| MedianFilter.Filter.Execute | tests/medfilter/medflt.h:97-114 | the same after any earlier use of the object; a disabled filter copies its input |
| MedianFilter.DirectMedian | tests/medfilter/medflt.h:221-247 | the direct method returns the same reference output, for every window size that has a middle element, and nothing for an empty input |
| MedianFilter.CompareFilters | tests/medfilter/testMedFilter.cpp:91-142 | the two filters never differ |
| CircleGeometry.OctantStep | lcd/PCD8544.c:643-653 | a pass leads from an ideal point of the octant to the ideal point of the next column |
| CircleGeometry.OctantError | lcd/PCD8544.c:643-653 | the squared distance of a loop point from the circle is off by at most its height |
| CircleGeometry.DecisionFits | lcd/PCD8544.c:632-653 | at radii up to 76, 82 and 83 the decision variable, (x+1)^2 + y^2 - y - r^2, stays within a signed octet |
| CircleGeometry.CircleGrows | lcd/PCD8544.c:655-663 | one pass adds exactly the ideal circle's points whose shorter offset is the new x |
| CircleGeometry.CircleDone | lcd/PCD8544.c:643-665 | when the loop ends no ideal point is missing |
| PlottedPoints.NoOctetWraps | lcd/PCD8544.c:632-653 | no value assigned to a variable of the circle's loop leaves int8_t exactly if the radius is at most 64 |
| PlottedPoints.CircleLoopPass | lcd/PCD8544.c:645-653 | a pass in octet arithmetic counts x up and keeps y at or above the old x; at those radii it keeps the exact decision variable |
| PlottedPoints.RunFollowsCircle | lcd/PCD8544.c:628-666 | at those radii, n passes in octets plot exactly the ideal points whose shorter offset is at most n |
| PlottedPoints.RunDrawsCircle | lcd/PCD8544.c:628-666 | ... and exactly the rounded circle when the loop is left |
| CircleRadii.FirstInwardsPass | lcd/PCD8544.c:632-653 | at a radius from 77 to 127, the state after the first step inwards, with the wrapped decision variable |
| CircleRadii.SecondInwardsPass | lcd/PCD8544.c:645-653 | at those but 82 and 83, the loop then steps inwards once more, too early |
| CircleRadii.LargeCircleWrong | lcd/PCD8544.c:628-666 | so the points plotted are not the circle, wherever the centre is |
| CircleRadii.HugeCircleWrong | lcd/PCD8544.c:635-643 | nor are they from radius 128 on: only the axis points are plotted, and the circle, reduced to octets, has others |
| PlottedPoints.CircleIsNear | lcd/PCD8544.c:655-663 | below radius 128 the circle reduced to octets is the points whose signed octet offset is on the circle |
| CircleRadii.CircleDrawnExactly | lcd/PCD8544.c:628-666 | for every radius: the points plotted are the circle, reduced to octet coordinates, exactly if the radius is at most 76, or 82, or 83 |
| CircleRadii.DrawableShown | lcd/PCD8544.c:628-666 | at those radii, around any centre on the screen, a pixel of the screen is plotted exactly if its true offset is on the circle |
| CircleRadii.FarCircleShown | lcd/PCD8544.c:628-666 | from radius 96 on that holds exactly if nothing plotted is on the screen |
| CircleRadii.HugeShown | lcd/PCD8544.c:635-643 | from radius 128 on it holds exactly if x0 + r and y0 + r are at most 255, r at most x0 + 172 and at most y0 + 208 |
| PlottedPoints.CircleWrapInvisible | lcd/PCD8544.c:655-663 | if the circle stays below 256, the wrap modulo 256 lights an on-screen pixel exactly if its true offset is on the circle |
| PlottedPoints.CircleWrapExact | lcd/PCD8544.c:655-663 | for an on-screen row of the centre and a radius up to 84 that holds exactly if x0 + r is at most 255 |
| Framebuffer.BitUpdate | lcd/PCD8544.c:365-368 | setting or clearing a bit changes that bit and no other |
| Framebuffer.PixelsDetermine | lcd/PCD8544.c:360-369 | two images with the same pixels are the same 504 octets |
| Framebuffer.PaintOne | lcd/PCD8544.c:360-369 | the octet update changes exactly one pixel of the screen |
| Lcd.Display.constructor | lcd/PCD8544.c:401-403 | text starts black, of size one, at the origin, over the zero-initialised image |
| Lcd.Display.SetPixel | lcd/PCD8544.c:360-369 | an on-screen pixel gets the colour, every other pixel keeps its own, off-screen coordinates do nothing |
| Lcd.Display.GetPixel | lcd/PCD8544.c:723-729 | reads the pixel mirrored within its group of eight rows |
| Lcd.Display.DrawCircle | lcd/PCD8544.c:628-666 | for every radius terminates and changes exactly the on-screen points that the octet loop visits; these are the circle exactly for radii up to 76, 82 and 83 |
| LineGeometry.LineStep | lcd/PCD8544.c:586-591 | subtracting dy and, on a negative result, adding dx and stepping keeps the height rounded to the nearest integer |
| LineGeometry.LoopFollowsLine | lcd/PCD8544.c:565-592 | the incremental error and height are those of the ideal line at every column, within bounds |
| LineGeometry.SegmentSymmetric | lcd/PCD8544.c:545-556 | exchanging the end points gives the same pixels |
| LineGeometry.SegmentHasEnds | lcd/PCD8544.c:543-593 | both end points belong to the segment |
| LineGeometry.SegmentInBox | lcd/PCD8544.c:543-593 | no pixel lies outside the rectangle of the end points |
| LineGeometry.LineConnected | lcd/PCD8544.c:576-592 | neighbouring columns differ in height by at most one |
| PlottedPoints.SignTestExact | lcd/PCD8544.c:586-587 | the octet comparison reads the sign of every error term exactly if neither dy nor dx - dy exceeds 128 |
| PlottedPoints.LineLoopStep | lcd/PCD8544.c:586-591 | where the sign is read right, a pass in octet arithmetic computes the ideal height and error |
| PlottedPoints.LineLoopMisstep | lcd/PCD8544.c:586-591 | where it is misread, the pass leads beside the ideal line |
| PlottedPoints.LineRunDrawsSegment | lcd/PCD8544.c:543-593 | for any ends in octets, the points plotted are the ideal segment exactly if no error term on it is misread |
| PlottedPoints.ShortLineRead | lcd/PCD8544.c:565-591 | none is if neither dy nor dx - dy exceeds 128, as between on-screen ends |
| LineSigns.ErrorBetween | lcd/PCD8544.c:565-591 | every error term lies between (dx/2) mod g and dx - g + (dx/2) mod g, with g the greatest common divisor of dx and dy |
| LineSigns.ErrorReached | lcd/PCD8544.c:565-591 | every value in that range in steps of g is the error term of some column |
| LineSigns.SignsReadExact | lcd/PCD8544.c:565-591 | no error term is misread exactly if both extreme ones differ from dy by a signed octet |
| LineSigns.LineDrawnExactly | lcd/PCD8544.c:543-593 | for any ends in octets, the points plotted are the ideal segment exactly under that condition on dx and dy |
| LineSigns.LineEndsExactly | lcd/PCD8544.c:576 | the octet counter ever passes the end exactly if the end is below 255 |
| PlottedPoints.LongLineMisread | lcd/PCD8544.c:565-591 | one is on the line from the origin to (254, 100) |
| Lcd.Display.DrawLine | lcd/PCD8544.c:543-593 | for a last major coordinate below 255, which is when the loop ends, exactly the on-screen points that the octet loop visits change; they are the segment exactly if dx and dy satisfy the condition |
| TextCells.OverlayIsStamp | lcd/PCD8544.c:482-509 | on the character grid, drawing 48 pixels one by one replaces the six octets of the cell by the glyph's and a blank |
| TextCells.GridAdvance | lcd/PCD8544.c:525-532 | the cursor moves to the next of the 84 cells in reading order, from the last one to the first |
| TextCells.RingWriteShows | lcd/PCD8544.c:459-467 | character k shows in cell (m + k) mod 84 unless a later one went round onto it |
| TextCells.RingWriteKeeps | lcd/PCD8544.c:459-467 | cells that the text does not reach keep their octets |
| Lcd.Display.DrawChar | lcd/PCD8544.c:482-509 | the 6 by 8 block shows the bits of the font octets in text colour on its opposite and no other pixel changes; nothing happens if it does not fit to the right |
| TextCells.GridWrite | lcd/PCD8544.c:511-534 | on the grid, a visible character stamps its cell and moves to the next one |
| TextCells.TextIsRingWrite | lcd/PCD8544.c:459-467 | a text without line feeds written from a grid cell on is a ring write, and the cursor ends behind it |
| TextCells.WritesUnique | lcd/PCD8544.c:459-467 | any text leads from a screen to exactly one image and cursor |
| TextPictures.ImageIsFont | lcd/PCD8544.c:487-507 | a cell's six octets are the character's five font octets in order and a blank one, complemented for white text |
| TextPictures.TextFillsCells | lcd/PCD8544.c:459-467 | at most 84 characters without line feed or carriage return, from a grid cell on: character k fills cell (14 row + col + k) mod 84 with its font octets, no other octet changes, the cursor ends behind the last |
| TextPictures.OverlayShowsGlyph | lcd/PCD8544.c:487-507 | at any position, the pixel of column i and row j of a character is bit j of its i-th font octet in the text colour, the sixth column is blank, no other pixel changes |
| TextPictures.LineFeedStartsRow | lcd/PCD8544.c:513-517 | a line feed leads to the first cell of the next row |
| TextPictures.CursorMovesRight | lcd/PCD8544.c:525-532 | within a row the cursor moves by six columns per unit of text size |
| Lcd.Display.Write | lcd/PCD8544.c:511-534 | image and cursor after any character at any cursor position, with line feed, carriage return and characters that do not fit |
| Lcd.Display.DrawString | lcd/PCD8544.c:459-467 | any text is written character by character; from a grid cell on and without line feeds this is the ring write |
| Lcd.Display.DisplayText | lcd/MiniLcdPCD8544.cpp:48-53 | the same by column and row of cells; a plain text fills the cells from there with its font octets |
| NativeDecoder.ExtInquiryDataDump | src2/hcidumpinternal.c:316-461 | the in-place effect of one AD structure on the record, or a read outside the frame |
| NativeDecoder.AdvertisingReportDump | src2/hcidumpinternal.c:463-501 | all reports' structures applied in order, the signal strength from the last octet of the frame |
| NativeDecoder.ParseFrame | src2/hcidumpinternal.c:503-603 | the record that a whole frame leaves; other packets and events leave the cleared record |
| Advertising.HexStringConcat | src2/hcidumpinternal.c:278-285 | the uuid's hexadecimal text is built octet by octet |
| TextDecoder.EndlessExactly | src/Beacon.cpp:122-128 | the walk over the structures never ends exactly if it has not ended after as many steps as the packet has characters |
| TextDecoder.MinusOneStays | src/Beacon.cpp:124-128 | a length column that reads -1, of a structure that is not manufacturer data, leaves the index where it is for ever |
| TextDecoder.EndlessPacket | src/Beacon.cpp:122-128 | a packet on which the decoder never returns |
| TextDecoder.ForwardStops | src/Beacon.cpp:124-128 | without a minus sign the walk ends |
| TextDecoder.FindManufacturerData | src/Beacon.cpp:122-130 | the walk over length and type columns, whenever it ends, with the exception for a column beyond the end or in front of the packet |
| TextDecoder.ParseHCIDump | src/Beacon.cpp:110-200 | for all packets on which the walk ends: the beacon, the default beacon after an exception, or a read past the end |
| TextDecoder.ParsedExactly | src/Beacon.cpp:110-200 | a beacon comes out exactly if the walk ends with 81 characters behind it; a packet that ends before the first structure is rejected |
| HexColumns.PairValue | src/Beacon.cpp:24-34 | a printed column is read back as its octet |
| HexColumns.LowerCaseValue | src/Beacon.cpp:24-34 | and so is one in small letters |
| HexColumns.SignsAndSpaces | src/Beacon.cpp:24-34 | what a sign, white space or another character in front of a digit makes of it |
| HexColumns.ColumnsDigits | src/Beacon.cpp:151-156 | columns without their spaces are the byte decoder's uuid string |
| DecoderAgreement.PowerMeaning | src2/hcidumpinternal.c:378-379 | the transmission power is the first data octet of the last structure of its type, zero if there is none |
| DecoderAgreement.NativeDecodes | src2/hcidumpinternal.c:463-603 | the byte decoder recovers the beacon fields, signal strength, time and transmission power of every valid single-report frame |
| ReportFrames.ManyReportsDecode | src2/hcidumpinternal.c:463-501 | a frame of several reports leaves the record of the last one, with the power last given in any of them |
| ReportFrames.FieldsReadBack | src2/hcidumpinternal.c:417-453 | manufacturer, code, major and minor id, high octet first, uuid and calibrated power are read back from the 25 octets |
| ReportFrames.HexStringAt | src2/hcidumpinternal.c:423-434 | the uuid's text shows its octets in order, each pair of digits reading as its octet |
| ReportFrames.OtherFramesIgnored | src2/hcidumpinternal.c:503-603 | other packets, events and subevents leave the cleared record |
| ReportFrames.OtherStructuresIgnored | src2/hcidumpinternal.c:316-461 | other structures, and manufacturer data that is too short, change nothing |
| DecoderAgreement.TextDecodes | src/Beacon.cpp:110-200 | the text decoder recovers the same fields from the frame's text |
| DecoderAgreement.DecodersAgree | src/Beacon.cpp:110-194 | both decoders return the same beacon, and the same signal strength exactly for octets from 0x80 on |
| ParserLogic.JoinRestoresPacket | src/ParserLogic.cpp:38-44 | trimming and joining the three printed lines of a frame restores its packet text |
| ParserLogic.TrimExactly | src/ParserLogic.cpp:9-13 | trimming takes off the spaces at both ends and nothing else |
| ParserLogic.MatchesByOctets | src/ParserLogic.cpp:35-37 | the test on the first line's text holds exactly if its octets are an LE meta event that shows 1A FF from octet 5 on |
| ParserLogic.RecordSkipped | src/ParserLogic.cpp:37-55 | a printed record whose first line does not carry the tag is passed over, however many lines it has |
| ParserLogic.RecordDecoded | src/ParserLogic.cpp:37-55 | of one that does, the first three lines are decoded as one packet and any further ones passed over |
| ParserLogic.StreamDecodesRecord | src/ParserLogic.cpp:29-56 | a frame printed over three lines is decoded as its frame exactly if its first line carries the tag, else passed over, wherever the lines are cut and whatever follows |
| ParserLogic.TwoLineRecord | src/ParserLogic.cpp:37-55 | a tagged record of two lines takes the next line as its third; the loop crashes if there is none or it is blank |
| ParserLogic.OneLineRecord | src/ParserLogic.cpp:37-55 | one of a single line takes the next two |
| ParserLogic.StreamEnds | src/ParserLogic.cpp:29-56 | the loop ends on all lines without a minus sign |
| ParserLogic.ProcessStream | src/ParserLogic.cpp:27-57 | the stream loop over all lines on which it ends, with lines missing at the end and the exception for a blank one |
| EventsWindow.AddInfoKeepsTotals | src2/EventsWindow.cpp:24-36 | the records hold, per minor id, the number of its events, the sums, and the first event's other fields |
| EventsWindow.EventsWindow.Reset | src2/EventsWindow.cpp:18-22 | an empty window of the given length from the clock on; the event counter is left alone |
| EventsWindow.EventsWindow.AverageInPlace | src2/EventsWindow.cpp:40-44 | every record's sums become truncated means, nothing else changes |
| EventsWindow.EventsWindow.GetCurrentBucket | src2/EventsWindow.cpp:38-53 | emits the current bucket and opens the window that abuts it |
| EventsWindow.EventsWindow.AddEvent | src2/EventsWindow.cpp:55-88 | an event at or behind the end emits the bucket first, and restarts at the clock if it is behind the next end too |
| EventsWindow.Run | src2/EventsWindow.cpp:14-88 | in every run, each emitted bucket holds the truncated means, counts and first fields of exactly its segment's events, and the window the totals of the rest |
| EventRecords.BucketRecords | src2/EventsWindow.cpp:24-72 | a bucket has a record for exactly the minor ids of its events, with their number, their mean signal strength and time without fraction, and the other fields of the first of them |
| EventsWindow.DoFollowsWindow | src2/EventsWindow.cpp:38-88 | the runs' windows and buckets are those of the class's operations |
| EventsWindow.RunPartitions | src2/EventsWindow.cpp:38-88 | the segments and the current window together are the stream, in order, nothing lost or doubled |
| EventsWindow.RunAbuts | src2/EventsWindow.cpp:14-16 | every window has the configured length, and successive ones abut except where the clock restarts them |
| EventsWindow.RunInTime | src2/EventsWindow.cpp:60-81 | with a clock never behind the event, every event is within its bucket's end |
| EventBounds.InTimeExactly | src2/EventsWindow.cpp:60-81 | that is so exactly if the clock was never a whole window behind an event that restarted the windows |
| EventBounds.StartedExactly | src2/EventsWindow.cpp:60-81 | every event is from its bucket's start on exactly if none was late when it arrived and the clock was not ahead of one that restarted the windows |
| EventsWindow.MeanTimeInBucket | src2/EventsWindow.cpp:66-72 | with a clock never behind the event, every mean time is within its bucket's end |
| EventsWindow.SumsFit | src2/EventsWindow.cpp:31-34 | up to two million events the sums stay within their 32 and 64 bits |
| Delivery.EventExchanger.PutEvent | src2/EventExchanger.cpp:11-15 | appends to the queue and counts |
| Delivery.EventExchanger.TakeEvent | src2/EventExchanger.cpp:17-26 | removes the oldest bucket and counts, or yields none |
| Delivery.StepConserves | src2/BeaconEventConsumer.cpp:68-80 | every step keeps: each bucket put is queued or has met one fate, and the handled ones are in order |
| Delivery.StepKeepsDecisions | src2/BeaconEventConsumer.cpp:69-77 | every step keeps: a bucket whose fate is known was dropped exactly if the flag was up when it was in hand |
| Delivery.StepCountsDrops | src2/BeaconEventConsumer.cpp:69-77 | every step keeps: the buckets dropped, with the one about to be, are as many as the publications with a bucket in hand |
| Delivery.StepKeepsOrder | src2/StatusInformation.h:103-132 | every step keeps the published snapshots a strictly increasing selection of the statuses set, each completed by names encoded while it was the newest |
| Delivery.StepCompletesStatus | src2/StatusInformation.h:103-132 | every step keeps: the shared status is the newest one set, completed by the names encoded since, and so is the consumer's copy of its own |
| Delivery.StepKeepsFlag | src2/StatusInformation.h:109-119 | the flag is up only for a status not yet published, whatever the interleaving |
| Delivery.StepPublishesCopies | src2/BeaconEventConsumer.cpp:70-74 | every step keeps: a status was or is about to be published exactly if it was copied while it was the newest |
| Delivery.StepKeepsLosses | src2/StatusInformation.h:109-119 | the newest status is lost exactly if its flag was raised while an older copy was being published |
| Delivery.RunsKeepInvariant | src2/BeaconEventConsumer.cpp:65-82 | all of that in every state that any interleaving of producer, monitor and consumer reaches |
| DeliveryProgress.ActorsGoOn | src2/BeaconEventConsumer.cpp:68-80 | producer and monitor can always go on, and the consumer has exactly one step, which waits only for a status being set |
| DeliveryProgress.EverythingSettles | src2/BeaconEventConsumer.cpp:68-80 | from every reachable state, the run can go on until the queue is empty, every bucket has met its fate and no status waits |
| Delivery.BucketsAccountedFor | src2/BeaconEventConsumer.cpp:68-80 | puts minus takes is the queue length; buckets put are handled, queued, in hand or dropped; which are dropped and how many, exactly |
| Delivery.NoBucketLost | src2/BeaconEventConsumer.cpp:68-80 | no bucket was lost exactly if no publication was made with a bucket in hand, and exactly if the handled buckets are a prefix of those put |
| Delivery.StatusesAccountedFor | src2/StatusInformation.h:103-132 | no status is published twice or out of order; what is sent equals it exactly if it had all names encoded before the copy; each was published exactly if it was copied while it was the newest; once settled, the newest was published exactly if its flag was not raised late |
| Delivery.BucketDropped | src2/BeaconEventConsumer.cpp:69-75 | a reachable run in which a bucket is taken and never handled |
| Delivery.StatusSkipped | src2/BeaconEventConsumer.cpp:70-74 | a reachable run in which a status is never published |
| Consumer.PublishedAll | src2/BeaconEventConsumer.cpp:45-60 | without skipping, everything handled is published |
| Consumer.PublishedGaps | src2/BeaconEventConsumer.cpp:45-60 | with skipping, the published numbers ascend and the missing ones are exactly the heartbeats' |
| Consumer.CollapseMore | src2/BeaconEventConsumer.cpp:28-33 | popping a heartbeat before pushing one keeps the batch what the whole stream of beacons collapses to |
| Consumer.CollapseShape | src2/BeaconEventConsumer.cpp:28-33 | numbers in the batch ascend strictly and no two heartbeats are neighbours |
| Consumer.CollapseNumbers | src2/BeaconEventConsumer.cpp:28-33 | the batch holds exactly the beacons that are no heartbeat directly followed by another |
| Consumer.BatchFromStream | src2/BeaconEventConsumer.cpp:28-60 | what is published or batched is a handled beacon, unchanged |
| Consumer.BeaconEventConsumer.HandleMessage | src2/BeaconEventConsumer.cpp:15-63 | over all calls the handled beacons are numbered 0, 1, 2, ...; what was published or batched follows from them |
| CArith.TruncDivMeaning | src2/SMA.h:57 | division in C: the quotient times the divisor lies between zero and the dividend, by less than one divisor |
| SMA.MeanIsExact | src2/SMA.h:23-58 | if the period times the bounds of the values fits 32 bits, the cached total wraps neither before nor after the oldest value is taken off, and the mean lies within the bounds |
| SMA.Average.Add | src2/SMA.h:23-47 | the ring holds the last values in order and the cached total is their 32-bit sum |
| SMA.Average.Avg | src2/SMA.h:52-58 | the truncated mean of the values in the ring; zero if none was added |
| StatusInformation.Status.AddEvent | src2/StatusInformation.h:67-76 | all events and heartbeats are counted and windowed, the last complete window is kept |
| StatusInformation.Status.GetHeartbeatRSSI | src2/StatusInformation.h:92-94 | the exact truncated mean of the last thirty heartbeats' signal strengths |
| StatusInformation.Status.EncodeLastStatus | src2/StatusInformation.h:123-132 | appends the named properties; a missing name is sent and added with an empty value |
| StatusInformation.CompletedConcat | src2/StatusInformation.h:126-131 | encoding twice adds what encoding all the names once adds |
| StatusInformation.CompletedSame | src2/StatusInformation.h:126-131 | it adds nothing exactly if no name is missing |
| StatusInformation.EncodedStatusReads | tests/testStatusBcastServer.cpp:18-25 | the list is read back as the names in order with their values, empty ones for missing names, exactly if it contains no null character |
| WireFormat.UntilNulExact | src/ByteBuffer.cpp:210-216 | a string survives the C string exactly if it contains no null character |
| WireFormat.UntilNulCuts | src/ByteBuffer.cpp:210-216 | otherwise it is cut in front of the first one |
| WireFormat.IntIsBigEndian | src/ByteBuffer.cpp:254-259 | a number is four octets, the highest first |
| WireFormat.LongReads | src/ByteBuffer.cpp:191-202 | a 64-bit value over its full range is read back from its two words |
| WireFormat.MessageLayout | src/Beacon.cpp:90-105 | the offsets and values of version, texts, numbers, time and message type in a message |
| WireFormat.MessageRead | src/Beacon.cpp:59-105 | what `fromByteMsg` makes of any message of `toByteMsg`, and that a reader in writer order inverts it |
| WireFormat.RoundTripExact | src/Beacon.cpp:59-105 | the beacon comes back unchanged exactly if its strings are null-free, it has no number, and its time is its message type times 2^32 |
| WireFormat.PropertiesRead | tests/testStatusBcastServer.cpp:18-25 | a property list is read back wherever it stands, and no octet more |
| WireFormat.FrameReads | src/SocketPublisher.cpp:79-98 | the frame holds the destination, a length that counts exactly the octets behind it, and the entries, with nothing left over |
| WireFormat.FrameRoundTrip | src/SocketPublisher.cpp:79-98 | destination and entries come back exactly if none contains a null character |
| WireFormat.MessageFrameReads | src/SocketPublisher.cpp:61-72 | a beacon's frame holds the destination, the length of the message, and the message |
| ByteBuffer.Buffer.ReserveBytes | src/ByteBuffer.h:136-142 | the reserved place and the position behind it; the vector grows by twice as much |
| ByteBuffer.Buffer.PutInt | src/ByteBuffer.cpp:254-259 | four octets overwritten at the write position, the rest of the buffer kept |
| ByteBuffer.Buffer.GetLong | src/ByteBuffer.cpp:191-202 | two words at the read position, zeros beyond the end |
| ByteBuffer.ToByteMsg | src/Beacon.cpp:90-105 | the buffer's data is the message layout |
| ByteBuffer.FromByteMsg | src/Beacon.cpp:59-81 | the sequence of reads decodes any octets, whatever their length |
| ByteBuffer.ReservedIsOverwritten | src/ByteBuffer.h:136-142 | the octets reserved too many are those of the entry count |
| ByteBuffer.PublishProperties | src/SocketPublisher.cpp:79-98 | the back-patched buffer is the frame, with nothing trailing, whatever it held before |
| ByteBuffer.ReadProperties | tests/testStatusBcastServer.cpp:18-25 | the reader's loop returns the entries at its position, none for a negative count |
| ByteBuffer.PropertiesRoundTrip | tests/testStatusBcastServer.cpp:18-25 | publishing and reading on the same octets returns a null-free list and destination, "scannerHealth" if none is given |
| ByteBuffer.Publish | src/SocketPublisher.cpp:61-72 | the frame of a beacon message |
| ByteBuffer.BeaconRoundTrip | src/SocketPublisher.cpp:61-72 | publishing and reading returns the destination, "beaconEvents" if none is given, the length, and the message, from which a reader in writer order takes the beacon |
| Switches.PassMeaning | src/tclap/SwitchArg.h:223-253 | a combined argument is accepted exactly if its characters name different switches that may still be set; exactly those are then toggled and every character is consumed |
| SwitchMeaning.ParseMeaning | src/tclap/SwitchArg.h:204-253 | on an accepted command line a switch's value changes exactly if some argument is its flag, its name or a combination with its flag; it is then marked as set and was not before; nothing else of it changes |
| SwitchMeaning.OnlyWholeWords | src/tclap/SwitchArg.h:169-185 | arguments that are no combination concern a switch only as its whole flag or name |
| SwitchMeaning.FreeFlagAccepted | src/tclap/SwitchArg.h:204-234 | the flag of a switch that may still be set is accepted |
| Switches.OrderIrrelevant | src/tclap/CmdLine.h:455-466 | for a combined argument, the order in which the switches were added changes neither acceptance nor any switch's final state |
| SwitchOrder.PassTouches | src/tclap/CmdLine.h:457-476 | any argument is accepted exactly by a condition on the set of switches, and toggles exactly those that it names |
| SwitchOrder.OrderNeverMatters | src/tclap/CmdLine.h:455-477 | the order changes neither the acceptance of a whole command line nor any switch's final state, if names and flags differ |
| Switches.SeparateMeansCombined | src/tclap/SwitchArg.h:160-253 | flags given separately and combined are accepted alike and leave the same switches |
| Switches.CombinedAnywhere | src/tclap/CmdLine.h:455-477 | the same anywhere in a longer command line |
| CommandLine.SwitchArg.CombinedSwitchesMatch | src/tclap/SwitchArg.h:169-202 | finds and blanks the first occurrence of the flag, in no other string and no other place |
| CommandLine.SwitchArg.LastCombined | src/tclap/SwitchArg.h:160-167 | whether every flag of the argument was consumed |
| CommandLine.SwitchArg.ProcessArg | src/tclap/SwitchArg.h:223-253 | the in-place effect on switch and argument, and when it throws |
| CommandLine.CmdLine.EmptyCombined | src/tclap/CmdLine.h:511-521 | accepts exactly an argument whose flags were all consumed |
| CommandLine.CmdLine.Offer | src/tclap/CmdLine.h:457-466 | the switch objects are offered the argument in turn, each seeing what the ones before it left |
| CommandLine.CmdLine.Parse | src/tclap/CmdLine.h:444-477 | the loop over all arguments leaves the switches of the reference parse, or rejects as it does; an accepted line leaves each switch object's value changed exactly if it was named |
| SpacePrint.LineLengthMeaning | src/tclap/StdOutput.h:247-265 | a line's length is the only one that ends it at a newline, at the text's end, at the last break that fits, or, with no break, at the full width |
| SpacePrint.CutExplained | src/tclap/StdOutput.h:247-265 | the same in terms of newline, space, comma and bar |
| SpacePrint.WrapMakesUp | src/tclap/StdOutput.h:241-287 | the printed chunks and runs of spaces between them concatenate to the text |
| SpacePrint.NothingElseLost | src/tclap/StdOutput.h:280-286 | without spaces, the printed text is the input |
| SpacePrint.LayoutIndents | src/tclap/StdOutput.h:229-295 | a text that fits, or has no maximum, is one line with the indent; else the first line has the indent and the later ones the offset added, for every sign of both, and none goes beyond the maximum |
| SpacePrint.LayoutMeaning | src/tclap/StdOutput.h:229-295 | nothing but spaces is lost; with room for every line, none is empty or wider than the maximum, later ones share the deeper indent and do not start with a space |
| SpacePrint.WrapWellCut | src/tclap/StdOutput.h:241-287 | the layout is the only list of lines that are all cut that way |
| SpacePrint.FindLength | src/tclap/StdOutput.h:247-265 | the trimming and newline loops terminate in bounds with that length |
| SpacePrint.SpacePrint | src/tclap/StdOutput.h:229-295 | whenever they get to the end, the printing loops stay in bounds and print the layout |
| WrapEnds.WrapEndsExactly | src/tclap/StdOutput.h:239-287 | the wrapping loop gets to the end of the text, within bounds, exactly under the precondition of the method |

## Left out

- Sockets, broker clients, JNI, GPIO and SPI output, REST and system queries: foreign input and output.
- `SocketPublisher::doSend`: its replay appends to the list it iterates over and never clears the backlog.
- `LCDfillcircle`, `LCDdrawbitmap`, rectangles and the bounding box of partial updates: the first wraps its loop counter; the others add only easy members.
- CircleRadii.HugeShown: for the radii from 77 to 127 other than 82 and 83 it is not said around which centres the wrong points stay off the screen, beyond `CircleRadii.FarCircleShown`.
- Lcd.Display.constructor: pins, contrast and controller commands are output.
- Lcd.Display.DrawLine: a last major coordinate of 255 is excluded, because the loop then never ends (`LineSigns.LineEndsExactly`).
- Lcd.Display.DrawString: line feeds are part of the character-by-character result but not of the ring of cells; character 255 is excluded, since the font ends before it.
- Lcd.Display.DrawChar: `char` is taken as unsigned, as on the display's ARM processors; where it is signed, characters above 127 would index in front of the font.
- Lcd.Display.Write: the same.
- Lcd.Display.DisplayText: the same.
- PlottedPoints.CircleWrapExact: is stated for the horizontal coordinate and radii up to 84; the point that a larger one wraps to need not be on the screen.
- TextDecoder.ParseHCIDump: packets on which the walk never ends are excluded, as the source does not return on them.
- TextDecoder.FindManufacturerData: the same.
- DecoderAgreement.DecodersAgree: TX power and time are not compared, since the text decoder has neither; frames have one report, because the text decoder stops at the first manufacturer data.
- ParserLogic.ProcessStream: lines end with a newline and contain no null characters; streams on which the text decoder never returns are excluded; publishing the decoded beacon is output.
- EventsWindow.SumsFit: the window arithmetic itself is on unbounded integers; beyond that many events, and in `1000 * windowSizeSeconds`, the sources could overflow.
- Delivery.RunsKeepInvariant: threads are a machine whose atomic steps are the locked sections and the single reads and writes of the flag; memory ordering of the unlocked flag, sleeping and the `running` flag are not modelled.
- Consumer.BeaconEventConsumer.HandleMessage: a bucket is given as its records in the map's order; counters do not wrap at 32 bits; `shouldSendMessages` is the constant false of the sources, so a batch is never sent.
- WireFormat.FrameReads: lengths are below 2^32 and entry counts below 2^31, so that positions and counters do not wrap; the stack buffer of `readString` has no limit.
- ByteBuffer float, double, `append`, `insert`, `clone` and printing: native-endian or unused by the wire format.
- Switches.PassMeaning: switches have no visitor, and `--ignore_rest`, mutually exclusive groups, required arguments, value and multi-switch arguments are not part of this model.
- CommandLine.SwitchArg.ProcessArg: the call of a visitor is left out, and the test for ignored rests with it, since only a visitor sets that flag.
- CommandLine.CmdLine.Parse: required counts and mutually exclusive groups are left out, since switches are never required and none is in a group.
- SpacePrint.SpacePrint: texts, widths and offsets on which the source does not get to the end are excluded (`WrapEnds.WrapEndsExactly`).
- Closest-beacon scan, scanner-id cycling, health status, time formatting, property and beacon map files: input and output, or easy members.
