# Verified models of dlib's sorting, serialization and arithmetic kernels

This project models the self-contained algorithms of dlib 19.7 in Dafny and proves what they
do on every input:

- **Sorting** (`Ordering`, `InsertionSort`, `HeapSort`, `QuickSort`, `SortPromise`): the introsort of
  `sort.h` on arrays, with any strict weak order as comparator. Calls of the comparator are counted
  by the comparator object itself, so the bounds are about the methods as they stand.
- **Serialization** (`FixedWidth`, `Streams`, `IntCode`, `Codec`, `CodecTheorems`, `CodecMaps`,
  `CodecLaws`, `CodecDestinations`, `CodecMethods`): the byte format of `serialize.h`. The supported types are a datatype `Ty`, so that
  one theorem covers every nesting of pairs, vectors, maps, sets, arrays and strings. `Encode`
  describes the bytes, `Decode` what reading makes of the stream and of the variable read into, also
  when it throws; the methods, which loop over streams, are proved to do what they say.
- **Floating point** (`Floats`): `float_details.h` over the real numbers, for all binary formats with
  given precision and exponent range (section 3.3 of IEEE 754-2008).
- **Arithmetic**: `square_root` (`SquareRoot`), the HSL conversions over the reals (`ColourSpaces`) and
  the alpha blends (`AlphaBlending`).
- **Loops over state**: box suppression (`BoxSuppression`, `Rectangles`), command-line options
  (`SetupOptions`, `SetupSettings`) and block timers (`Timing`).

`dafny verify dfyconfig.toml` checks everything.

Where code and documentation disagree the model follows the code:

- `sort.h` promises that each element is less than the next. With equivalent elements that is
  impossible; `SortPromise.StrictIffNoTies` gives the exact condition.
- `serialize.h:135-138` puts the exponent of a floating point value first; the code writes the
  mantissa first (lines 490-491).
- `serialize.h:44-45` promises that after an exception the item has an initial value. That holds for
  integers only; `CodecDestinations` gives the exact types, for used and for fresh variables.
- `pixel.h:256` documents blending by alpha/255; the rgb overload divides by 256.
- `ignore_overlapped_boxes` is documented to return the number of newly ignored boxes and can
  return more, and to ignore the smaller of any two overlapping boxes, which it does not if the
  larger one was ignored before; `BoxSuppression` gives the exact conditions.
- `RGB2HSL` is documented as the inverse of `HSL2RGB`, but gives negative hues that `HSL2RGB` does
  not expect.
- `qsort_array_main` asks for `left` and `right` to be valid indices; its own second call can pass
  `left == right + 1`, which the model admits.

Modelling decisions:

- `item *= -1` on the minimum of a signed type is undefined for `int` and wider; the model lets it
  wrap as two's complement does, and then even the minimum is written and read correctly.
- A control byte with a zero count makes the readers use uninitialised memory; such input gets the
  outcome `Unspecified`, as does the legacy ASCII format of floating point values.
- Sizes are written as an 8-byte unsigned integer. By `IntCode.RoundTripIffInRange` the bytes do not
  depend on that width.
- `std::frexp` is determined by the properties the C standard gives it (`BinaryReals.FrexpUnique`), and
  conversion to a floating point type is any function that leaves the numbers of that type alone.
- `str.lower` and `str.strip`, the overlap test, the area of a rectangle and the clock are parameters;
  the examples about boxes use the rectangles of `rectangle.h:140-206` and the test of
  `box_overlap_testing.h:86-105` with exact quotients.
- A routine that reads takes the value its destination holds and returns what it leaves there; an
  exception is a status.
- The partitioning branch of `qsort_array_main`, the inner loop of `isort_array`, the two loops of
  `hsort_array` and the loops of `pack_int`, `unpack_int`, the containers and `convert_from_T` are
  methods of their own.

## Model

| member | source | states |
|---|---|---|
| QuickSorting.QuickSort | face_detect/src/dlib-19.7/dlib/sort.h:430-443 | For every strict weak order and every range left <= right in bounds: the range ends up sorted, permuted, with everything outside untouched; at most n(6 log2 n + 1) comparator calls; recursion depth at most 2 log2 n + 1, and depth k + 1 only if 32^k <= 17^k (right - left) |
| QuickSorting.QuickSortMain | face_detect/src/dlib-19.7/dlib/sort.h:236-278 | The recursive step for any depth budget, including the empty right part and a pivot at index 0: sorted, permuted, comparator calls bounded by Cost, depth by the number of levels of the budget |
| QuickSorting.SplitAndSort | face_detect/src/dlib-19.7/dlib/sort.h:265-276 | The branch that partitions: both sides are sorted with the decayed budget, and the whole range is sorted and permuted within the same bounds |
| QuickSorting.Partition | face_detect/src/dlib-19.7/dlib/sort.h:184-228 | The middle element ends at the returned position with exactly the elements before it on its left; right - left comparator calls; holds for any comparator |
| QuickSorting.SortedAroundPivot | face_detect/src/dlib-19.7/dlib/sort.h:270-275 | Sorting both sides of a partition sorts the range |
| QuickSorting.LevelsNeedBudget | face_detect/src/dlib-19.7/dlib/sort.h:265-268 | A budget that lasts more than k levels is at least (32/17)^k |
| QuickSorting.LevelsLogarithmic | face_detect/src/dlib-19.7/dlib/sort.h:265-268 | A budget d lasts at most 2 log2 d + 1 levels |
| QuickSorting.CostOfPartition | face_detect/src/dlib-19.7/dlib/sort.h:270-275 | Partitioning plus the worst cases of both sides one level deeper stays within the worst case of the whole |
| QuickSorting.TotalCost | face_detect/src/dlib-19.7/dlib/sort.h:442 | Starting with the budget right - left, the worst case is at most n(6 log2 n + 1) comparator calls |
| QuickSorting.TotalDepth | face_detect/src/dlib-19.7/dlib/sort.h:253 | Starting with that budget the recursion is logarithmically deep |
| QuickSorting.Log2IsFloor | face_detect/src/dlib-19.7/dlib/sort.h:253 | The logarithm in these bounds is the one to base 2, rounded down |
| HeapSorting.HeapSort | face_detect/src/dlib-19.7/dlib/sort.h:451-483 | Sorts any range at any offset, permuting it, with at most 4 n log2 n comparator calls, for short ranges through insertion sort |
| HeapSorting.BuildHeap | face_detect/src/dlib-19.7/dlib/sort.h:469-475 | Heapifying from the middle down to left makes the whole range a heap |
| HeapSorting.ExtractAll | face_detect/src/dlib-19.7/dlib/sort.h:477-482 | Moving the root behind the shrinking heap sorts the range |
| HeapSorting.Heapify | face_detect/src/dlib-19.7/dlib/sort.h:286-339 | If every node from i on except i is a heap root, so is i afterwards; only elements from i on move; at most two calls per level below i |
| HeapSorting.PickLargest | face_detect/src/dlib-19.7/dlib/sort.h:321-330 | The two comparisons of a round find a largest child, or that the node is in order; no call when there are no children |
| HeapSorting.SiftStep | face_detect/src/dlib-19.7/dlib/sort.h:332-337 | Exchanging a node with its largest child moves the only possible violation one level down |
| HeapSorting.RootIsMaximal | face_detect/src/dlib-19.7/dlib/sort.h:304-305 | In a heap laid out from `start` no element comes after the root |
| HeapSorting.ExtractStep | face_detect/src/dlib-19.7/dlib/sort.h:478-482 | Each extraction keeps the heap in front of a sorted suffix of elements not before it |
| InsertionSorting.InsertionSort | face_detect/src/dlib-19.7/dlib/sort.h:395-422 | Sorts, permutes, is stable, makes exactly as many exchanges as the input has inversions, and at most right - left more comparator calls than that |
| InsertionSorting.InsertDown | face_detect/src/dlib-19.7/dlib/sort.h:412-420 | The inner loop extends the sorted prefix by one element, by exchanges of out-of-order neighbours only |
| InsertionSorting.InversionsSwap | face_detect/src/dlib-19.7/dlib/sort.h:415 | Exchanging two neighbours that are out of order removes exactly one inversion |
| InsertionSorting.ExchangedInversions | face_detect/src/dlib-19.7/dlib/sort.h:413-420 | After k such exchanges there are exactly k inversions fewer |
| InsertionSorting.ExchangedClasses | face_detect/src/dlib-19.7/dlib/sort.h:413-420 | Such exchanges never change the order of equivalent elements |
| InsertionSorting.SortedIffNoInversions | face_detect/src/dlib-19.7/dlib/sort.h:411 | A range is sorted exactly when it has no inversions |
| InsertionSorting.InversionsArePairs | face_detect/src/dlib-19.7/dlib/sort.h:413-415 | The number of inversions is the number of pairs of positions i < j whose elements are out of order |
| InsertionSorting.ClassOfConcat | face_detect/src/dlib-19.7/dlib/sort.h:413-415 | The classes whose order stability keeps pick out elements one by one |
| InsertionSorting.ClassOfOne | face_detect/src/dlib-19.7/dlib/sort.h:413-415 | Namely the equivalent elements and no others |
| SortPromise.StrictIffNoTies | face_detect/src/dlib-19.7/dlib/sort.h:34-35 | The header's promise that each element is less than the next holds of the sorted range exactly when the input has no two equivalent elements |
| SortPromise.EqualElementsBreakPromise | face_detect/src/dlib-19.7/dlib/sort.h:34-35 | An input of two equal elements breaks that promise under every order |
| IntCode.PackInt | face_detect/src/dlib-19.7/dlib/serialize.h:184-229 | Writes exactly the type-independent encoding, for every value of every signed or unsigned type of 1 to 8 bytes |
| IntCode.FillDigits | face_detect/src/dlib-19.7/dlib/serialize.h:213-218 | The loop writes the base-256 digits of the magnitude, also when the negated minimum has wrapped back to itself |
| IntCode.UnpackInt | face_detect/src/dlib-19.7/dlib/serialize.h:236-305 | Returns what Unpack says and leaves the rest unread, for signed and unsigned types, errors included |
| IntCode.Assemble | face_detect/src/dlib-19.7/dlib/serialize.h:292-298 | Shifting the bytes in from the last to the first gives the magnitude wrapped to the type |
| IntCode.DigitCount | face_detect/src/dlib-19.7/dlib/serialize.h:331-336 | The number of magnitude bytes is the least k >= 1 with magnitude < 256^k |
| IntCode.UnpackOfEncode | face_detect/src/dlib-19.7/dlib/serialize.h:354-413 | What reading an encoded integer into any type gives: rejected if negative for an unsigned type or too long, otherwise the value wrapped to the type, the rest unread |
| IntCode.RoundTripIffInRange | face_detect/src/dlib-19.7/dlib/serialize.h:99-103 | An encoded integer reads into any type as itself exactly when the type can hold it, whatever type wrote it |
| IntCode.SilentWrap | face_detect/src/dlib-19.7/dlib/serialize.h:279-301 | A value that does not fit is rejected, except by a signed type with enough bytes, which silently wraps it |
| IntCode.SilentWrapExample | face_detect/src/dlib-19.7/dlib/serialize.h:292-301 | 3000000000 read into a 4-byte signed type gives -1294967296 without an error |
| IntCode.UnpackOfPrefix | face_detect/src/dlib-19.7/dlib/serialize.h:285-289 | No proper prefix of an encoded integer is accepted by any type |
| IntCode.ControlByteBits | face_detect/src/dlib-19.7/dlib/serialize.h:566-573 | The first byte of an encoded integer has zeros at the mask 0x70 |
| IntCode.EncodeInjective | face_detect/src/dlib-19.7/dlib/serialize.h:114-128 | Different integers have different encodings |
| IntCode.EncodeFormat | face_detect/src/dlib-19.7/dlib/serialize.h:114-128 | The format: sign flag and byte count in the first byte, then the magnitude without leading zeros |
| IntCode.UnpackAny | face_detect/src/dlib-19.7/dlib/serialize.h:184-413 | What any control byte, reserved bits included, and any bytes behind it are read as: too many bytes or a sign for an unsigned type throw, everything else is the signed value of the bytes reduced to the type |
| IntCode.UnpackShort | face_detect/src/dlib-19.7/dlib/serialize.h:285-289 | Fewer bytes than the control byte announces throw, whatever its other bits |
| IntCode.LittleEndian | face_detect/src/dlib-19.7/dlib/serialize.h:117-119 | Magnitudes are stored in little-endian order |
| CodecMethods.Serialize | face_detect/src/dlib-19.7/dlib/serialize.h:780-1126 | Writes exactly Encode of the value, for all supported types nested to any depth |
| CodecMethods.SerializeSeq | face_detect/src/dlib-19.7/dlib/serialize.h:946-962 | Writes the size and then every element in order |
| CodecMethods.Deserialize | face_detect/src/dlib-19.7/dlib/serialize.h:795-1126 | Ends, consumes and leaves in the destination exactly what Decode says, for all supported types nested to any depth, whatever the destination held, on every input, well-formed or not |
| CodecMethods.ReadSlots | face_detect/src/dlib-19.7/dlib/serialize.h:974-976 | The loop over a vector or array reads every element over the one that was there, and an exception leaves the elements after it as they were |
| CodecMethods.ReadFloat | face_detect/src/dlib-19.7/dlib/serialize.h:561-590 | Tells the binary from the ASCII format by the first byte and reads mantissa, then exponent, into a temporary |
| CodecMethods.ReadMap | face_detect/src/dlib-19.7/dlib/serialize.h:836-858 | Clears the map and fills it; an exception leaves the entries read so far |
| CodecMethods.ReadEntries | face_detect/src/dlib-19.7/dlib/serialize.h:847-854 | The key and value variables live as long as the loop: every entry is read over the one before, and a later entry with an equivalent key replaces the value |
| CodecMethods.ReadSet | face_detect/src/dlib-19.7/dlib/serialize.h:885-905 | Clears the set and fills it; an exception leaves the elements read so far |
| CodecMethods.ReadElements | face_detect/src/dlib-19.7/dlib/serialize.h:896-901 | Every element is read into the one loop variable, over the element before, and inserted |
| CodecMethods.ReadArray | face_detect/src/dlib-19.7/dlib/serialize.h:1306-1328 | Reads the elements only if the stored size is the length of the array |
| CodecMethods.ReadChars | face_detect/src/dlib-19.7/dlib/serialize.h:1002-1054 | Resizes and reads over the old contents without checking that all bytes were there; missing ones keep what was there |
| CodecMethods.ReadCharArray | face_detect/src/dlib-19.7/dlib/serialize.h:1333-1367 | Accepts a stored size equal to the length, or one less and then restores the terminator, before the read is checked |
| CodecTheorems.RoundTrip | face_detect/src/dlib-19.7/dlib/serialize.h:30-37 | Every value of every type reads back as itself into any variable, and everything behind it is left unread |
| CodecTheorems.ObjectsRoundTrip | face_detect/src/dlib-19.7/dlib/serialize.h:34-37 | Any list of objects of any types written one after another reads back in order into variables of these types |
| CodecTheorems.InsertEntriesRebuilds | face_detect/src/dlib-19.7/dlib/serialize.h:849-854 | Putting ascending entries into a map one after another rebuilds it, for any strict weak order of keys |
| CodecTheorems.InsertElementsRebuilds | face_detect/src/dlib-19.7/dlib/serialize.h:897-901 | Inserting ascending elements rebuilds a set |
| CodecMaps.FindInsert | face_detect/src/dlib-19.7/dlib/serialize.h:853 | item[d] = r on any map: keys equivalent to d have the value r afterwards, under the key that was there, and no other key is affected |
| CodecMaps.InsertEntriesMeaning | face_detect/src/dlib-19.7/dlib/serialize.h:849-854 | Entries put into a map in any order and with any repetitions: the keys ascend, and every key has the value of its last entry under its first key |
| CodecMaps.FindInsertElement | face_detect/src/dlib-19.7/dlib/serialize.h:900 | item.insert(d) on any set: an equivalent element that was there stays, and no other one is affected |
| CodecMaps.ReadSetMeaning | face_detect/src/dlib-19.7/dlib/serialize.h:897-901 | Elements inserted in any order and with any repetitions: the set is in order and holds the first of equivalent ones |
| CodecLaws.DecodedMap | face_detect/src/dlib-19.7/dlib/serialize.h:836-858 | A map read from any bytes is in order and holds what was read last for each key, whatever order it was written in |
| CodecLaws.DecodedSet | face_detect/src/dlib-19.7/dlib/serialize.h:885-905 | A set read from any bytes is in order and holds the first of equivalent elements read |
| CodecLaws.DecodeIsOf | face_detect/src/dlib-19.7/dlib/serialize.h:795-1126 | On any input, a variable that holds a value of its type holds one after the read, also after an exception |
| CodecLaws.BoolBytesAccepted | face_detect/src/dlib-19.7/dlib/serialize.h:757-778 | A bool is read from exactly the two bytes it can be written as; anything else throws and leaves the variable alone |
| CodecLaws.BoolVectorBytes | face_detect/src/dlib-19.7/dlib/serialize.h:926-940 | In a vector of bool only '1' is true; all other bytes, and missing ones, are false |
| CodecLaws.CharVectorBytes | face_detect/src/dlib-19.7/dlib/serialize.h:1002-1017 | A char vector over a used one holds the bytes that were there, then its old contents, then zeros |
| CodecLaws.ArrayOfOtherSize | face_detect/src/dlib-19.7/dlib/serialize.h:1313-1327 | An array throws and is left alone if another size was stored |
| CodecLaws.BrokenSlots | face_detect/src/dlib-19.7/dlib/serialize.h:974-976 | After an exception in a vector or array the elements before the one that threw have been read and those after it are untouched |
| CodecLaws.FloatFormatByte | face_detect/src/dlib-19.7/dlib/serialize.h:566-573 | A first byte with any of the bits of the mask 0x70 is taken for the older format |
| CodecLaws.IntegerBytes | face_detect/src/dlib-19.7/dlib/serialize.h:114-128 | Five integers byte by byte |
| CodecLaws.SimpleBytes | face_detect/src/dlib-19.7/dlib/serialize.h:130-132 | bool, char and a pair byte by byte |
| CodecLaws.FloatBytes | face_detect/src/dlib-19.7/dlib/serialize.h:485-493 | The number one as a double byte by byte: the mantissa first |
| CodecLaws.BufferBytes | face_detect/src/dlib-19.7/dlib/serialize.h:907-1126 | A string, char and bool vectors and char arrays byte by byte |
| CodecLaws.VectorBytes | face_detect/src/dlib-19.7/dlib/serialize.h:946-962 | A vector and an array byte by byte |
| CodecLaws.MapBytes | face_detect/src/dlib-19.7/dlib/serialize.h:811-833 | A map byte by byte: each key before its value |
| CodecTheorems.Truncation | face_detect/src/dlib-19.7/dlib/serialize.h:839-1126 | The first n bytes of an encoding are accepted exactly when only bytes of a trailing char, unsigned char or bool vector are missing; otherwise the reader throws |
| CodecTheorems.PrefixFreeIffChecked | face_detect/src/dlib-19.7/dlib/serialize.h:984-1054 | The encodings of a type are prefix-free exactly when the type cannot end in such a vector |
| CodecTheorems.TruncatedCharsAccepted | face_detect/src/dlib-19.7/dlib/serialize.h:1002-1017 | A char vector cut after its first of two chars is read into an empty one with a zero in place of the second |
| CodecTheorems.CStringEncoding | face_detect/src/dlib-19.7/dlib/serialize.h:1268-1282 | A null-terminated char array is written byte for byte as the string in front of the terminator |
| CodecTheorems.StringIntoCharArray | face_detect/src/dlib-19.7/dlib/serialize.h:1333-1367 | A string reads into a char array exactly if it has the length of the array or one less, then with the terminator restored; otherwise the array is left alone |
| CodecDestinations.IgnoresDestinationIff | face_detect/src/dlib-19.7/dlib/serialize.h:1009-1013 | What a completed read gives depends on what the destination held exactly for the types that can end in a char or unsigned char vector; all other types read the same into a used variable as into a fresh one, on every input |
| CodecDestinations.ReadsAlike | face_detect/src/dlib-19.7/dlib/serialize.h:795-1126 | Two reads of the same input into different variables end alike and consume the same; their results can differ only where the input ends |
| CodecDestinations.EntryKeepsBytes | face_detect/src/dlib-19.7/dlib/serialize.h:847-854 | Inside a map, a char vector that is cut short keeps bytes of the previous entry |
| CodecDestinations.ResetsOnExceptionIff | face_detect/src/dlib-19.7/dlib/serialize.h:42-45 | The promise that after an exception the destination has an initial value holds on all inputs exactly for the integer types |
| CodecDestinations.FreshStaysInitialIff | face_detect/src/dlib-19.7/dlib/serialize.h:42-45 | For a variable that had its initial value before, it holds on all inputs exactly for integers, bool, char, floating point values, char and bool vectors, char arrays of length 1, and arrays of one such element |
| FloatDetailsModel.FloatDetails.ConvertFrom | face_detect/src/dlib-19.7/dlib/float_details.h:103-140 | Mantissa and exponent become DetailsOf the value, whatever frexp returns for it, and fit 64 and 16 bits |
| BinaryReals.FrexpExists | face_detect/src/dlib-19.7/dlib/float_details.h:122-123 | Every real number has a significand in [1/2, 1) and an exponent, or zeros |
| BinaryReals.FrexpUnique | face_detect/src/dlib-19.7/dlib/float_details.h:122-123 | And only one: what frexp returns is determined by the number |
| FloatDetailsModel.FloatDetails.ShiftOutZeros | face_detect/src/dlib-19.7/dlib/float_details.h:130-134 | The compaction loop computes Compact |
| FloatDetailsModel.CompactKeepsValue | face_detect/src/dlib-19.7/dlib/float_details.h:126-134 | Compaction preserves mantissa * 2^exponent |
| FloatDetailsModel.StoredDetails | face_detect/src/dlib-19.7/dlib/float_details.h:110-134 | What is stored for a finite number f * 2^exp, with d the smaller of 63 and the digits of the format: f * 2^d without its fraction and exp - d, less as many zero bytes as there are up to eight |
| FloatDetailsModel.StoredZero | face_detect/src/dlib-19.7/dlib/float_details.h:122-134 | Zero is stored as mantissa 0 and exponent 64 - d |
| FloatDetailsModel.StoredOne | face_detect/src/dlib-19.7/dlib/float_details.h:122-134 | As a double, the number one is stored as mantissa 16 and exponent -4 |
| FloatDetailsModel.StoredSpecials | face_detect/src/dlib-19.7/dlib/float_details.h:112-139 | Infinities and NaN are stored as mantissa 0 and the exponents 32000, 32001 and 32002 |
| FloatDetailsModel.ReadSpecials | face_detect/src/dlib-19.7/dlib/float_details.h:146-153 | And read back from these exponents, NaN also from larger ones, whatever the mantissa |
| FloatDetailsModel.DetailsFit | face_detect/src/dlib-19.7/dlib/float_details.h:86-91 | Every finite value fits int64 and int16 with an exponent below is_inf, and a nonzero mantissa ends with a nonzero byte |
| FloatDetailsModel.IntegerIffHasDigits | face_detect/src/dlib-19.7/dlib/float_details.h:123 | Scaling the significand to d digits loses nothing exactly when the number has at most d binary digits |
| FloatDetailsModel.ExactIff63Digits | face_detect/src/dlib-19.7/dlib/float_details.h:63-65 | A finite value of any format is represented exactly if and only if 63 binary digits suffice for it |
| FloatDetailsModel.ExactUpTo63Digits | face_detect/src/dlib-19.7/dlib/float_details.h:110 | In a format of at most 63 digits every finite value is represented exactly |
| FloatDetailsModel.SixtyFourDigitsLose | face_detect/src/dlib-19.7/dlib/float_details.h:110-124 | 2^64 - 1 belongs to the 64-digit format but is represented as 2^64 - 2 |
| FloatDetailsModel.MantissaRepresentable | face_detect/src/dlib-19.7/dlib/float_details.h:147 | If the represented number belongs to a format, so does the mantissa on its way through ldexp |
| FloatDetailsModel.FloatReadsBack | face_detect/src/dlib-19.7/dlib/serialize.h:485-590 | A value written and read, possibly in another format: infinities and NaN survive, and so does every finite value of at most 63 digits that the receiving format has |
| FloatDetailsModel.ReadBackIff63Digits | face_detect/src/dlib-19.7/dlib/float_details.h:25-28 | Between two formats that both have a finite value, it survives if and only if 63 digits suffice for it |
| SquareRoots.SquareRoot | face_detect/src/dlib-19.7/dlib/algs.h:187-231 | For every value up to 2^32 - 1 the result is the real square root rounded up |
| SquareRoots.CeilSqrtUnique | face_detect/src/dlib-19.7/dlib/algs.h:194-195 | The specification determines the result |
| SquareRoots.GuessConverges | face_detect/src/dlib-19.7/dlib/algs.h:202-223 | Four steps from the guess of its band suffice for every value from 3 on |
| SquareRoots.NewtonLower | face_detect/src/dlib-19.7/dlib/algs.h:220 | A step never drops below the root rounded down |
| SquareRoots.LastStep | face_detect/src/dlib-19.7/dlib/algs.h:223-230 | When the fourth step ends at the root or one above it, and when the correction is right |
| ColourSpaces.RoundTripIff | face_detect/src/dlib-19.7/dlib/pixel.h:797-866 | Over the reals, HSL and back restores a colour of the unit cube if and only if its hue is not negative, that is unless r >= b > g; then it does after adding 360 to the hue |
| ColourSpaces.MagentaFails | face_detect/src/dlib-19.7/dlib/pixel.h:812-813 | Magenta gets the hue -60 and comes back as (1, -1, 0) |
| ColourSpaces.HueRange | face_detect/src/dlib-19.7/dlib/pixel.h:810-819 | Hues lie in [-60, 300), negative exactly when r >= b > g |
| ColourSpaces.HSL2RGBInUnit | face_detect/src/dlib-19.7/dlib/pixel.h:829-866 | Hues in [0, 360] with saturation and lightness in [0, 1] give colours in the unit cube |
| ColourSpaces.BackToHsl | face_detect/src/dlib-19.7/dlib/pixel.h:829-832 | From HSL and back: saturation and lightness are restored, and the hue up to a full turn, coming out negative from 300 degrees on |
| ColourSpaces.BackToGrey | face_detect/src/dlib-19.7/dlib/pixel.h:810-819 | Without saturation, or at lightness 0 or 1, hue and saturation come back as 0 |
| ColourSpaces.GreyHasNoHue | face_detect/src/dlib-19.7/dlib/pixel.h:803-819 | Greys have hue 0 and saturation 0 |
| ColourSpaces.KnownHues | face_detect/src/dlib-19.7/dlib/pixel.h:810-819 | Red, yellow, green, cyan and blue are 60 degrees apart, starting at 0 |
| ColourSpaces.RGB2HSLInRange | face_detect/src/dlib-19.7/dlib/pixel.h:803-809 | Saturation and lightness stay in [0, 1] |
| AlphaBlending.RgbPixel.Assign | face_detect/src/dlib-19.7/dlib/pixel.h:1049-1086 | Blends each channel as BlendRgb does, opaque sources by copying |
| AlphaBlending.GrayPixel.Assign | face_detect/src/dlib-19.7/dlib/pixel.h:720-754 | Blends the average of the source channels as BlendGray does, for signed and unsigned grayscale types of 8 and 16 bits |
| AlphaBlending.BlendRgbExact | face_detect/src/dlib-19.7/dlib/pixel.h:1066-1084 | Despite the unsigned wrap-around each channel becomes dest + floor((src - dest) alpha / 256), between dest and src |
| AlphaBlending.BlendGrayExact | face_detect/src/dlib-19.7/dlib/pixel.h:729-752 | The grayscale overload gives dest + (src - dest) alpha / 255 truncated, between dest and src, without int overflow, and saturated only if the type cannot hold the source value |
| AlphaBlending.BlendGrayStopsShort | face_detect/src/dlib-19.7/dlib/pixel.h:746-752 | A grayscale blend goes from dest towards the exact composite and stops less than one short of it |
| AlphaBlending.AverageIsMean | face_detect/src/dlib-19.7/dlib/pixel.h:723-725 | The intensity of a colour source is the mean of its channels, rounded down |
| AlphaBlending.RgbMeetsFormulaIff | face_detect/src/dlib-19.7/dlib/pixel.h:253-256 | The documented formula is met exactly iff the source is opaque or (src - dest) alpha is a non-positive multiple of 255 |
| AlphaBlending.GrayMeetsFormulaIff | face_detect/src/dlib-19.7/dlib/pixel.h:253-256 | For grayscale it is met exactly iff (src - dest) alpha is a multiple of 255 and the type can hold the result |
| AlphaBlending.DocumentedFormulaMissed | face_detect/src/dlib-19.7/dlib/pixel.h:1078-1084 | White at opacity 254 over black gives 253 instead of 254 |
| AlphaBlending.RunRgbStaysInRange | face_detect/src/dlib-19.7/dlib/pixel.h:1047-1086 | After any number of rgb blends a channel lies within the range of its first value and all sources |
| AlphaBlending.RunGrayStaysInRange | face_detect/src/dlib-19.7/dlib/pixel.h:720-754 | And so does a grayscale pixel |
| AlphaBlending.RunRgbError | face_detect/src/dlib-19.7/dlib/pixel.h:1059-1084 | After k rgb blends a channel differs from exact compositing by less than 2k |
| AlphaBlending.RunGrayError | face_detect/src/dlib-19.7/dlib/pixel.h:733-752 | After k grayscale blends a pixel whose type holds all source values differs from exact compositing by less than k |
| BoxSuppression.IgnoreOverlappedBoxes | face_detect/src/dlib-19.7/examples/dnn_mmod_train_find_cars_ex.cpp:43-74 | The loops compute Turns, in place |
| BoxSuppression.TurnsSeparate | face_detect/src/dlib-19.7/examples/dnn_mmod_train_find_cars_ex.cpp:49-50 | Afterwards no two kept boxes, taken in order, overlap |
| BoxSuppression.TurnsOnlyIgnore | face_detect/src/dlib-19.7/examples/dnn_mmod_train_find_cars_ex.cpp:66-69 | Only ignore flags change, and they only turn on |
| BoxSuppression.TurnsJustified | face_detect/src/dlib-19.7/examples/dnn_mmod_train_find_cars_ex.cpp:49-50 | Every newly ignored box overlaps an initially kept box of at least its area |
| BoxSuppression.FirstLargestSurvives | face_detect/src/dlib-19.7/examples/dnn_mmod_train_find_cars_ex.cpp:66-69 | The first initially kept box of largest area survives |
| BoxSuppression.FinalFlags | face_detect/src/dlib-19.7/examples/dnn_mmod_train_find_cars_ex.cpp:54-72 | The final flag of every box, read off the boxes passed in: it is kept exactly if it was kept on its turn and met no larger kept box then |
| BoxSuppression.CountOfTurns | face_detect/src/dlib-19.7/examples/dnn_mmod_train_find_cars_ex.cpp:51 | The returned number is the number of newly ignored boxes plus, for every box kept on its turn, the larger kept boxes beyond the first that overlap it |
| BoxSuppression.CountExactIff | face_detect/src/dlib-19.7/examples/dnn_mmod_train_find_cars_ex.cpp:51 | So it is never too small, and it is the promised number if and only if no box that is still kept on its turn meets two larger ones; all of this is defined on the boxes passed in |
| BoxSuppression.CountedTwice | face_detect/src/dlib-19.7/examples/dnn_mmod_train_find_cars_ex.cpp:164 | Three rectangles under test_box_overlap(0.50, 0.95) of which one is newly ignored and two are returned |
| BoxSuppression.SmallerIgnoredIff | face_detect/src/dlib-19.7/examples/dnn_mmod_train_find_cars_ex.cpp:49-50 | The documented promise, that of every two overlapping boxes the smaller one is ignored, is kept if and only if of no such pair the smaller one survives |
| BoxSuppression.SurvivingLoser | face_detect/src/dlib-19.7/examples/dnn_mmod_train_find_cars_ex.cpp:49-50 | If it does, then the larger one was beaten by an earlier box before the two could meet |
| BoxSuppression.SmallerKept | face_detect/src/dlib-19.7/examples/dnn_mmod_train_find_cars_ex.cpp:164 | Three rectangles under test_box_overlap(0.50, 0.95) of which the smallest is kept although a larger one overlaps it |
| Rectangles.OverlapInPixels | face_detect/src/dlib-19.7/dlib/image_processing/box_overlap_testing.h:86-105 | Rectangles overlap under test_box_overlap(0.50, 0.95) exactly if they share more than half of the pixels of their sum or more than 95 in 100 of those of one of them |
| Rectangles.InsideOverlaps | face_detect/src/dlib-19.7/dlib/image_processing/box_overlap_testing.h:86-105 | A nonempty rectangle inside another one overlaps it |
| Rectangles.AreaIsPixelCount | face_detect/src/dlib-19.7/dlib/geometry/rectangle.h:151-173 | The area is the number of pixels |
| Rectangles.IntersectPixels | face_detect/src/dlib-19.7/dlib/geometry/rectangle.h:195-206 | The intersection has the common pixels |
| Rectangles.PlusIsLeast | face_detect/src/dlib-19.7/dlib/geometry/rectangle.h:178-193 | The sum is the least rectangle that contains both |
| SetupOptions.GetOptions | face_detect/src/dlib-19.7/setup.py:69-132 | Settings and the remaining sys.argv agree with a left-to-right reading of the arguments; remove is only called with an argument that is present |
| SetupSettings.SettingsMeaning | face_detect/src/dlib-19.7/setup.py:72-132 | The settings from the argument list itself: extra is what each value adds, in order; config is that of the last --debug or --release; cmakePath is the value of the last --cmake; options has one entry for each --repackage; generatorSet says whether some -G has a value |
| SetupSettings.KeptMeaning | face_detect/src/dlib-19.7/setup.py:80-130 | The arguments that are kept are those that are neither options nor values of the options before them |
| SetupOptions.Sys.Remove | face_detect/src/dlib-19.7/setup.py:96 | Drops the first equal argument |
| SetupOptions.ArgvConserved | face_detect/src/dlib-19.7/setup.py:80-130 | As a multiset, sys.argv is the original minus exactly the consumed options and values |
| SetupOptions.RemainingIsLatest | face_detect/src/dlib-19.7/setup.py:96 | An argument that was kept m times ends up at the places of its last m occurrences among all arguments |
| SetupOptions.FinalOrderIff | face_detect/src/dlib-19.7/setup.py:80-130 | The remaining arguments are in their original order if and only if these places come in the order in which the arguments were kept |
| SetupOptions.OrderPreservedIff | face_detect/src/dlib-19.7/setup.py:96 | They are in order after every single argument if and only if behind the first kept copy of every consumed argument there are only more copies of it |
| SetupOptions.DistinctArgumentsKeepOrder | face_detect/src/dlib-19.7/setup.py:96 | Distinct arguments keep their order |
| SetupOptions.EchoReorders | face_detect/src/dlib-19.7/setup.py:83-96 | A value equal to an earlier argument can move that argument to the end |
| Timing.Timers.Start | face_detect/src/dlib-19.7/dlib/timing.h:105-114 | Keeps every accumulator equal to stop times minus start times modulo 2^64, and every name the first non-empty one |
| Timing.Timers.NameIsFirst | face_detect/src/dlib-19.7/dlib/timing.h:85-97 | A slot is unnamed exactly if no start since the last clear gave it a non-empty name; otherwise it has the first such name, cut to 39 characters |
| Timing.Timers.Stop | face_detect/src/dlib-19.7/dlib/timing.h:116-119 | Keeps the same invariant |
| Timing.Timers.Clear | face_detect/src/dlib-19.7/dlib/timing.h:167-176 | Empties all slots, and keeps the invariant over the calls since then |
| Timing.Timers.TotalIsExact | face_detect/src/dlib-19.7/dlib/timing.h:105-119 | The accumulator is the true total exactly when that fits 64 bits, whatever underflow there was in between |
| Timing.ElapsedIsRunningTime | face_detect/src/dlib-19.7/dlib/timing.h:105-119 | Stop times minus start times are the time since the last clear weighted with the number of running starts |
| Timing.BalancedTotal | face_detect/src/dlib-19.7/dlib/timing.h:16-43 | After any interleaving in which every start was stopped, a slot holds the time spent in it |

## Left out

- Overflow of `unsigned long` indices in `heapify`: `(i<<1)+2-start` exceeds the type only for ranges of more than half its values; indices are natural numbers here, proved never to go below zero.
- Memory limits: a huge size field makes `resize` throw `bad_alloc`, which the model does not show.
- Write errors of output streams, stream state flags and the texts of exceptions.
- The legacy ASCII float parser, protocol buffers, `std::complex`, `std::wstring`, `ustring`, `enumerable` and `map_pair`: foreign calls, or the same as a pair or vector of modelled types.
- What the readers do with uninitialised memory after a zero-length integer, and what they then leave in the destination.
- The sign of floating point zero, and hardware rounding of doubles in the HSL code.
- The Lab colour conversions, which need fractional powers, and the byte-quantised hsi pixels.
- CodecTheorems.TruncatedCharsAccepted: gives one input; the general statement is CodecTheorems.Truncation.
- Grayscale pixels of 32 and more bits or of floating point type, whose blending can overflow an int or round.
- Timing.Timers.Start: keeps each 40-byte name buffer as the C string in it; the zero padding of `strncpy` is not shown.
- Timing.BalancedTotal: assumes that the clock never goes back and that the total fits 64 bits, without which the accumulator only holds the total modulo 2^64.
- `timing::print`, the rest of `setup.py`, and everything in the repository that only declares types or drives GUI, network or learning code.
- `c/hbllib`: its slot tests are assignments, so that a file slot can never be taken.
