# glycin-ng: verified model

glycin-ng decodes images into textures, turns them upright, converts their pixel layout, and hands them to
C callers; `libglycin-shim` wraps its C ABI in reference-counted objects. This project models the parts where
that goes wrong silently and proves what they promise, for all inputs and all runs.

| file | component |
|---|---|
| Grids.dfy | pictures as rows of pixels; strided buffers (`View`) and packed ones (`Pack`) |
| Orientations.dfy, PixelBags.dfy | the eight EXIF orientations as a group acting on pictures |
| Textures.dfy, Images.dfy | the scatter loop that bakes an orientation, and the pass over an image |
| Exif.dfy | the EXIF orientation reader, with a printer for every blob it accepts |
| Colors.dfy, Formats.dfy | channel arithmetic, pixel layouts and their C constants |
| Encoder.dfy | normalisation to RGBA8 and the in-place flattening for JPEG |
| Convert.dfy, Pipeline.dfy, Layouts.dfy, Delivery.dfy | the shim's converter, the laws between all pixel components, what layout names promise, and what a caller receives |
| XInclude.dfy, Payload.dfy | the `xi:include` event rewriter, and what an include pulls in |
| Cursor.dfy, Handles.dfy, HandleSafety.dfy, HandleProgress.dfy, HandleFrames.dfy | the frame cursor and the handle protocol over every interleaving: what it keeps, that it never gets stuck, and which frame each request gets |
| Gif.dfy, Sniff.dfy | the GIF accumulation loop and format detection |

Two ideas carry most proofs. Buffers are read through `View` and written through `Pack`, which are inverse to
each other, so group laws, commutation and round trips are argued about pictures and only `Grids` does index
arithmetic. The XML stream is read as the printing of a tree, so the streaming rewriter is compared with a
tree rewrite.

## Where the code departs from what it says

- `transform_texture` ends in an `expect` that is said always to hold (src/metadata/transform.rs:66-73). It
  fails exactly when axes are swapped and the height times the bytes per pixel reaches 2^32
  (`TransformPanicsIff`), as for one column of 2^30 RGBA pixels (`TallTexturePanics`). Only a caller that raises
  `Limits::max_height` far beyond its default of 32768 can get there (`DefaultLimitsNeverPanic`).
- `convert_layout` casts its stride to 32 bits unchecked. As a function it loses the stride of very wide frames
  whose pixels grow (`ConvertedWellFormedIff`, `StrideCanTruncate`), which also decides when two conversions
  compose (`ComposesIff`). The shim never supplies such a frame: it only converts SVG frames, whose pixels are as
  wide as any target's, so everything it delivers is consistent (`DeliveredWellFormed`).
- `gly_loader_set_accepted_memory_formats` is documented to convert every decoded frame outside the set
  (libglycin-shim/src/lib.rs:245-248). Raster frames are converted with selection 0, that is, not at all:
  `DeliveredAcceptedIff` says exactly when the delivered format is accepted, `RasterKeepsFormat` shows a gray PNG
  that stays gray.
- The header of libglycin-shim/src/convert.rs says SVG frames are premultiplied; the decoder delivers straight
  alpha (src/formats/svg.rs:47-63). What conversion does to a premultiplied frame is stated of `maybe_convert`
  alone (`PremultipliedFrameConverted`).
- The EXIF blob stays on a baked image, so applying the orientation again would turn it again (`NotIdempotent`);
  `IdempotentIff` gives the images for which it would not. A load applies the pass once; repetition is a property
  of the function, not of a run of the program.
- The GIF loop multiplies frame dimensions in 16 bits: a 256 by 256 frame is refused although the documented
  limit is 256 Mi pixels (`SquareFrameRefused`, `AcceptedIff`).
- The comment on `advance` speaks of clamping to the last frame; the code returns nothing at a non-looping end
  (`NoneOnlyAtEnd`, `NotClamped`).
- An include left open at the end of the stream makes the XInclude pass give up on the whole document, complete
  includes and all (`GivesUpIff`, `OpenIncludeKeepsAll`); the comments only speak of closed ones.
- Stripping is documented to drop a leading XML declaration (src/formats/svg/xinclude.rs:159-160). The code takes
  any instruction whose name begins with `xml` for one, and cuts at its first `>` (`StylesheetMistaken`). It does
  what it is documented to do exactly when the payload does not begin with `<?xml`, or a blank follows and its first
  `>`, if any, belongs to a `?>` (`KeepsPromiseIff`).

## Model

| member | source | states |
|---|---|---|
| Orientations.TagMeansSides | src/image.rs:41-52 | for each EXIF value, the coordinate map sends stored row 0 and column 0, and nothing else, to the sides the TIFF 6.0 Orientation field names |
| Orientations.TagMeansOrientation | src/image.rs:41-52 | each tag value is read as the one orientation that puts stored row y and column x at distances y and x from the sides the tag names, with width and height changing places for 5 to 8 |
| Orientations.EachDestinationOnce | src/metadata/transform.rs:57-64 | two source pixels never share a destination, and the inverse map finds the source again |
| Orientations.GroupLaws | src/image.rs:16-36 | orientations form a group: unit, inverses, associativity of the composition table |
| Orientations.CoordsCompose | src/metadata/transform.rs:76-87 | moving a coordinate by two orientations is moving it once by their composition, output dimensions included |
| Orientations.OrientCompose | src/metadata/transform.rs:41-64 | the group acts on pictures |
| Orientations.OrientMap | src/metadata/transform.rs:57-64 | turning a picture commutes with any per-pixel function |
| PixelBags.OrientKeepsBag | src/metadata/transform.rs:57-64 | all eight orientations keep the multiset of pixels |
| Textures.FromParts | src/image.rs:92-113 | succeeds exactly on data of stride times height whose rows fit the stride |
| Textures.TransformTexture | src/metadata/transform.rs:41-74 | the nested copy loop into a zeroed buffer produces the packed turned picture, or panics where the parts do not form a texture |
| Textures.Scatter | src/metadata/transform.rs:57-64 | after the loops every source pixel sits at its mapped place; no copy disturbs an earlier one |
| Textures.TransformPanicsIff | src/metadata/transform.rs:66-73 | the final `expect` fails exactly when an axis swap makes the packed row reach 2^32 bytes |
| Textures.TallTexturePanics | src/metadata/transform.rs:66-73 | one column of 2^30 RGBA pixels, on which it fails |
| Textures.DefaultHeightNeverPanics | src/limits.rs:40-50 | no texture within the default height limit makes it fail, in any orientation and layout |
| Textures.TransformedPicture | src/metadata/transform.rs:41-74 | result dimensions, format, tight packing, and the turned picture |
| Textures.BakedBytes | src/metadata/transform.rs:57-64 | byte for byte: the pixel at `y * stride + x * bpp` stands, packed, at its mapped place |
| Textures.TransformCompose | src/metadata/transform.rs:41-87 | baking twice equals baking the composition once, byte for byte and in width, height, stride and panics |
| Textures.TransformInverse | src/metadata/transform.rs:41-87 | the inverse orientation gives back the packed original |
| Textures.PaddingIrrelevant | src/metadata/transform.rs:46-62 | stride and padding bytes of the source never reach the result |
| Textures.TransformPermutesPixels | src/metadata/transform.rs:57-64 | baking permutes the pixels of the texture |
| Images.BakeAll | src/metadata/transform.rs:20-27 | all frames are baked in order with their delays, or none |
| Images.Image.BakeIntoFrames | src/metadata/transform.rs:16-39 | frames replaced, reported dimensions swapped with the axes, nothing changed for `Normal` or on a panic |
| Images.Image.ReplaceFrames | src/image.rs:267-271 | frames and dimensions change, orientation and EXIF do not |
| Images.Image.ApplyOrientationIfPresent | src/metadata/mod.rs:21-36 | the whole new image state for missing blob, missing tag, `Normal`, reporting only, and baking |
| Images.AppliedPictures | src/metadata/mod.rs:21-36 | baking turns every frame's picture by the orientation the EXIF blob asks for and keeps delays |
| Images.ReportsTag | src/metadata/mod.rs:21-33 | without a tag nothing happens; reporting changes the orientation field alone, to what the tag means |
| Images.BakesTag | src/metadata/mod.rs:34-36 | baking reports `Normal`, keeps the blob, and swaps the dimensions for the tags 5 to 8 |
| Images.ReportAndBakeAgree | src/metadata/mod.rs:30-36 | the bake does to every picture what the report says is still to be done |
| Images.BakedByTag | src/metadata/mod.rs:21-36 | from tag to pixels: every stored pixel is shown at the distances the tag value means |
| Images.AppliedPanicsIff | src/metadata/mod.rs:34-35 | the pass panics exactly on an axis swap with some frame too tall |
| Images.DefaultLimitsNeverPanic | src/limits.rs:40-50 | no image within the default height limit makes the pass panic |
| Images.AppliedStaysUniform | src/metadata/transform.rs:28-38 | reported dimensions keep matching every frame |
| Images.AppliedTimesPictures | src/metadata/mod.rs:21-36 | n passes turn every picture by the n-th power of the orientation |
| Images.FourPassesRestore | src/metadata/mod.rs:21-36 | four passes restore every picture, two do except for quarter turns |
| Images.IdempotentIff | src/metadata/mod.rs:21-36 | a second pass changes nothing exactly when every frame is symmetric under the orientation |
| Images.NotIdempotent | src/metadata/mod.rs:21-36 | a two-pixel image that a second pass changes |
| Exif.ParseOrientation | src/metadata/exif.rs:17-49 | the indexed scan with early return computes the reader, with every slice in range on any input |
| Exif.LittleEndianBytes | src/metadata/exif.rs:17-75 | literal little-endian TIFF bytes with one orientation entry, behind the prefix or not, whatever follows, give its value |
| Exif.BigEndianBytes | src/metadata/exif.rs:17-75 | the same for literal big-endian bytes |
| Exif.ParsePrinted | src/metadata/exif.rs:17-75 | round trip: any byte order, IFD offset from 8, entry list and tail, with or without prefix, gives the first orientation entry's value or none |
| Exif.FirstOrientationIff | src/metadata/exif.rs:36-48 | the printed value is that of the first entry tagged 0x0112 |
| Exif.ByteOrdersAgree | src/metadata/exif.rs:59-75 | the same entries in either byte order and at any offset give the same answer |
| Exif.AcceptedIsPrinted | src/metadata/exif.rs:17-35 | every blob whose IFD is found at offset 8 or later is the printing of some entries |
| Exif.ParsesIffPrinted | src/metadata/exif.rs:17-49 | with or without prefix, and the IFD at offset 8 or later: the reader returns a value on exactly the printed blobs that carry one |
| Exif.ParsesIffLaidOut | src/metadata/exif.rs:17-49 | on any blob, overlapping headers included: the reader returns a value exactly when the blob lays out an IFD whose first orientation it is |
| Exif.ParseExtends | src/metadata/exif.rs:17-49 | appending bytes never changes an answer |
| Colors.UnpremulExact | src/encoder.rs:355-369 | on valid input unpremultiplying never clamps and is undone by premultiplying with rounding up |
| Colors.UnpremulLargest | libglycin-shim/src/convert.rs:200-214 | the result is the largest value whose premultiplied form does not exceed the input |
| Colors.OverWhiteRounding | src/encoder.rs:320 | the rounded composite is within 127/255 of the exact one, no darker than colour or white share, exact for opaque and transparent pixels |
| Colors.LumaOfGray | libglycin-shim/src/convert.rs:195-198 | gray is its own luma |
| Colors.LumaBetween | libglycin-shim/src/convert.rs:195-198 | luma lies between the smallest and largest channel |
| Encoder.Sample | src/encoder.rs:334-353 | a pixel has a sample exactly when its layout has 8-bit channels |
| Encoder.ToRgba8 | src/encoder.rs:243-300 | loops and checks compute the packed RGBA8 picture or the first error, all indices in range |
| Encoder.ErrorsInOrder | src/encoder.rs:243-300 | which error, in products of the sizes: the first failing check decides |
| Encoder.FlattenOverWhite | src/encoder.rs:316-332 | the in-place pass equals the map over the original pixels for any buffer length; no unread input is clobbered |
| Encoder.CompositeAt | src/encoder.rs:318-329 | which three bytes each pixel becomes |
| Encoder.FlattenedPicture | src/encoder.rs:196-197 | flattening a packed RGBA8 buffer composites each pixel of its picture |
| Encoder.ImageEncoder.Encode | src/encoder.rs:138-233 | frame-count and normalisation errors, the codec's input with profile and quality where it takes them, its failure or its file; the encoder is unchanged |
| Encoder.EncodedIff | src/encoder.rs:138-233 | a file is returned exactly when one frame is queued, it normalises, the target is one of six, and the codec for that target works |
| Encoder.EncodeErrors | src/encoder.rs:138-233 | which error, and when |
| Encoder.CodecTold | src/encoder.rs:186-226 | the JPEG codec gets the quality; PNG, JPEG and WebP codecs get the profile, others none |
| Encoder.NewEncoder | src/encoder.rs:64-76 | an encoder exists exactly for the six supported targets |
| Encoder.CodecInputSize | src/encoder.rs:147-203 | bytes handed over match the dimensions and layout handed over; RGB8 exactly for JPEG |
| Encoder.CodecInputPicture | src/encoder.rs:138-203 | end to end, the codec sees at each pixel the sampled colour, composited over white for JPEG |
| Convert.ConvertLayout | libglycin-shim/src/convert.rs:122-155 | the appending loops compute the packed converted picture; they fail exactly on unknown layouts, uncovered rows, or unsampleable pixels |
| Grids.CoversIff | libglycin-shim/src/convert.rs:126-141 | the range checks in products of stride, width and pixel size |
| Grids.ViewBytes | libglycin-shim/src/convert.rs:142-144 | a pixel is read from `y * stride + x * bpp` |
| Grids.PackBytes | libglycin-shim/src/convert.rs:134-147 | pixels are written row-major without padding |
| Layouts.SizeByName | src/memory.rs:88-107 | a layout has as many bytes as its name lists channels, in their width; the 8-bit ones are those of width one |
| Layouts.HeaderConstants | include/glycin_ng.h:44-59 | the 8-bit and two-channel layouts have the constants of the C header |
| Layouts.WideConstants | include/glycin_ng.h:60-67 | the 16-bit and float colour layouts too |
| Layouts.UnknownConstants | src/c_api.rs:746-812 | no other constant stands for a layout, and frames or targets with one are never converted |
| Layouts.SampleByName | libglycin-shim/src/convert.rs:157-176 | sampling shows the colour the name describes: channels in the listed order, straight with the clamp and the zero-alpha case, opaque without alpha |
| Layouts.EmitByName | libglycin-shim/src/convert.rs:178-198 | emitting writes the channels the name lists; gray is 30 parts red, 59 green, 11 blue, rounded down |
| Layouts.GrayOfRgba | libglycin-shim/src/convert.rs:178-198 | an RGBA pixel as gray and gray with alpha, on literal bytes and constants |
| Layouts.ConvertedPixel | libglycin-shim/src/convert.rs:122-155 | every pixel of a converted frame, from name to name; size and delay are kept |
| Convert.ConvertedWellFormedIff | libglycin-shim/src/convert.rs:134-154 | converted bytes fill width, height and layout; the frame is consistent exactly when its stride fits 32 bits |
| Convert.NarrowerConversionFits | libglycin-shim/src/convert.rs:122-155 | a well-formed frame whose pixels do not grow always converts to a consistent frame |
| Convert.StrideCanTruncate | libglycin-shim/src/convert.rs:150 | of the function alone: a one-row gray frame of 2^30 pixels converts to a frame with stride 0 |
| Convert.PaddingNeverConverted | libglycin-shim/src/convert.rs:137-141 | frames that differ only in stride and padding convert to the same frame |
| Convert.PickTarget | libglycin-shim/src/convert.rs:96-120 | the target is accepted and comes from the straight equivalent or the priority list; none means neither the straight equivalent nor any priority format is accepted |
| Layouts.PreferenceOrder | libglycin-shim/src/convert.rs:107-119 | RGBA, BGRA, ARGB, RGB, BGR, gray with alpha, gray: the first accepted one wins after the straight equivalent |
| Layouts.StraightByName | libglycin-shim/src/convert.rs:97-106 | the straight equivalent lists the same channels in the same width; all 8-bit premultiplied layouts have one |
| Layouts.FlagAccepts | libglycin-shim/src/convert.rs:24-49 | accepting a format is having the flag of its name set |
| Layouts.UnknownCountsAsRgba | libglycin-shim/src/memformat.rs:38-70 | constants outside the header are accepted exactly when RGBA is |
| Layouts.UndefinedBitsIgnored | libglycin-shim/src/convert.rs:69-75 | an empty selection and one with an undefined bit leave the frame alone |
| Convert.FirstAcceptedIsFirst | libglycin-shim/src/convert.rs:107-119 | earlier candidates win: nothing before the chosen target is accepted |
| Convert.PremultipliedFrameConverted | libglycin-shim/src/convert.rs:69-120 | `maybe_convert` turns a premultiplied RGBA frame into straight RGBA when the selection has that and not the source layout |
| Convert.MaybeConvertSafe | libglycin-shim/src/convert.rs:63-83 | the result is the input, or has an accepted format and the input's size and delay |
| Convert.MaybeConvertReaches | libglycin-shim/src/convert.rs:69-120 | for every well-formed frame, exactly when the result has an accepted format; for sampleable ones that is when a format is on offer, and the result is consistent exactly when its stride fits |
| Convert.MaybeConvertIdempotent | libglycin-shim/src/convert.rs:69-83 | converting twice is converting once |
| Delivery.DeliveredAcceptedIff | libglycin-shim/src/lib.rs:434-447 | a caller's frame has an accepted format exactly when the decoder's format is accepted, or the image is SVG and some writable format is |
| Delivery.RasterUntouched | libglycin-shim/src/lib.rs:546-576 | raster frames are delivered with the parts of their texture, unchanged |
| Delivery.SvgConverted | libglycin-shim/src/lib.rs:434-447 | SVG frames are delivered as they are if RGBA is accepted, else converted to the best accepted format |
| Delivery.DeliveredWellFormed | libglycin-shim/src/lib.rs:546-576 | every delivered frame is consistent, whatever the selection |
| Delivery.RasterKeepsFormat | libglycin-shim/src/lib.rs:245-248 | a gray PNG delivered as gray to a caller accepting RGBA only, though `maybe_convert` could convert it |
| Pipeline.ConstantsAgree | src/c_api.rs:746-812 | constants are decoded back, and both crates agree on pixel sizes and on what can be sampled |
| Pipeline.SamplersAgree | libglycin-shim/src/convert.rs:157-176 | the shim's sampler and the encoder's are the same function |
| Pipeline.NormalisersAgree | src/encoder.rs:243-300 | `to_rgba8` succeeds exactly when the shim can convert and the output is at most 1 GiB; bytes are identical |
| Pipeline.BakingCommutes | libglycin-shim/src/convert.rs:122-155 | converting the baked texture equals baking the converted one, for every orientation and target |
| Pipeline.EmitReadsBack | libglycin-shim/src/convert.rs:178-193 | sampling reads back what emitting wrote, up to what the layout can hold |
| Pipeline.SelfConversion | libglycin-shim/src/convert.rs:122-155 | converting to the layout a frame has only repacks it |
| Pipeline.ComposesIff | libglycin-shim/src/convert.rs:122-193 | going through a four-channel straight layout loses nothing, for every target, exactly when that stride fits 32 bits |
| Pipeline.GraySurvives | libglycin-shim/src/convert.rs:178-198 | gray comes back unchanged from every layout the converter writes |
| Pipeline.PremultipliedRecovered | libglycin-shim/src/convert.rs:122-214 | a valid premultiplied frame is recovered pixel for pixel from its straight conversion |
| XInclude.MemchrSubseq | src/formats/svg/xinclude.rs:117-122 | the window loop finds a substring wherever one is |
| XInclude.Expand | src/formats/svg/xinclude.rs:38-111 | probe, main loop and swallow loop compute the rewriter, reader errors and early end included |
| XInclude.SwallowExact | src/formats/svg/xinclude.rs:83-93 | the swallow loop stops at precisely the end tag of the include it entered, past a balanced segment |
| XInclude.SwallowTracksStack | src/formats/svg/xinclude.rs:84-93 | on any accepted stream the include-only counter is the number of open includes and hits zero exactly when the entered one closes |
| XInclude.WellNestedIffPrinted | src/formats/svg/xinclude.rs:45-57 | a stream passes the nesting check exactly when it prints some forest |
| XInclude.ExpandedForest | src/formats/svg/xinclude.rs:52-108 | the streaming machine refines the tree rewrite, whatever follows |
| XInclude.ExpandsDocuments | src/formats/svg/xinclude.rs:36-111 | on a well-nested document: something is returned exactly when some include is expandable; output is well nested and, payloads erased, is the input with the expanded includes cut out |
| XInclude.ExpansionRestores | src/formats/svg/xinclude.rs:50-108 | putting each payload back into a whole include element that carries it, in order, gives the input: each include is expanded in place with its own payload |
| XInclude.GivesUpIff | src/formats/svg/xinclude.rs:85-90 | on any accepted stream the machine gives up exactly when an expandable include is never closed |
| XInclude.ReturnsIff | src/formats/svg/xinclude.rs:36-111 | on any accepted stream something is returned exactly when the probe succeeds, no reader error ends it, an include of either spelling is expandable and no such one stays open |
| XInclude.OpenIncludeKeepsAll | src/formats/svg/xinclude.rs:85-90 | a complete include, expanded alone, is not expanded when an open one follows |
| Payload.TrimLeadingWhitespace | src/formats/svg/xinclude.rs:178-184 | the index loop drops exactly the leading blanks |
| Payload.StripPrologIff | src/formats/svg/xinclude.rs:165-176 | what is kept of a payload: exactly the text behind its blanks and, if that begins with `<?xml`, behind its first `>` and blanks |
| Payload.DeclarationDropped | src/formats/svg/xinclude.rs:165-176 | a literal `<?xml ...?>` is dropped with the blanks around it |
| Payload.KeepsPromiseIff | src/formats/svg/xinclude.rs:159-176 | stripping drops a leading XML declaration and nothing else exactly when the text does not begin with `<?xml`, or a blank follows and its first `>` ends a `?>` |
| Payload.InstructionCut | src/formats/svg/xinclude.rs:165-172 | every instruction whose name merely begins with `xml` is cut at its first `>`, though it is content |
| Payload.StylesheetMistaken | src/formats/svg/xinclude.rs:165-172 | a document behind a stylesheet instruction: the instruction is cut in its middle and its rest pasted |
| Payload.FirstHref | src/formats/svg/xinclude.rs:132-149 | the first `href` decides alone |
| Payload.DataUriPasted | src/formats/svg/xinclude.rs:52-100 | from attribute to output: the tag is replaced by what stripping leaves of the decoded payload, and for ordinary payloads that is the payload without its declaration |
| Cursor.FrameCursor.Advance | libglycin-shim/src/types.rs:134-149 | one locked advance: returned index and new cursor |
| Cursor.RunReturns | libglycin-shim/src/types.rs:134-149 | over any mix of calls the cursor stays in range and the i-th successful call returns i mod n |
| Cursor.NoneOnlyAtEnd | libglycin-shim/src/types.rs:134-149 | nothing is returned exactly at a non-looping end, and the cursor stays |
| Cursor.NotClamped | libglycin-shim/src/types.rs:132-149 | the second non-looping call on one frame returns nothing |
| HandleSafety.StepKeeps | libglycin-shim/src/lib.rs:60-503 | every atomic step of every call keeps the ownership invariant |
| HandleSafety.TakePassesHandle | libglycin-shim/src/lib.rs:277-283 | the locked take passes the handle from the one object holding it to the call alone; the loader had never been taken before |
| HandleSafety.SetterAlone | src/c_api.rs:406-418 | a setter empties a full handle that its own call alone holds, and putting the loader back restores the state |
| HandleSafety.FailedAttachReleases | libglycin-shim/src/lib.rs:60-76 | state that could not be attached releases the handle that only its call held; no object appears |
| HandleSafety.LoadExchanges | src/c_api.rs:432-450 | a load releases the loader handle, and on success the call alone holds a fresh image |
| HandleSafety.InspectedImage | libglycin-shim/src/lib.rs:475-484 | a re-rendered image is released on both paths; a loaded one stays with the call that attaches it |
| HandleSafety.LastUnrefReleases | libglycin-shim/src/types.rs:90-98 | an object is destroyed and its handle released exactly when the last reference of callers and calls goes; otherwise no handle changes |
| HandleSafety.LastFinishReleases | libglycin-shim/src/types.rs:152-158 | the same when a call ends and its reference was the last |
| HandleSafety.NeverUsedAfterRelease | libglycin-shim/src/types.rs:90-225 | over every interleaving: no use or free after release, no emptied loader found, and each handle released once if dead and never if live |
| HandleSafety.OneLoadPerLoader | libglycin-shim/src/lib.rs:277-283 | of any racing loads at most one per loader gets the handle |
| HandleSafety.LateLoadFails | libglycin-shim/src/lib.rs:277-283 | a load coming to a taken loader ends without a handle and changes nothing else |
| HandleSafety.FrameIndexExists | libglycin-shim/src/lib.rs:490-500 | frames are only extracted at an index the image has |
| HandleFrames.FramesInOrder | libglycin-shim/src/lib.rs:490-497 | over every interleaving the k-th extraction from an image gets frame k modulo their number; a request ends without a frame exactly with none at all or at a non-looping end, and then the image is unchanged |
| HandleFrames.ExtractedInOrder | libglycin-shim/src/types.rs:134-149 | the whole history of an image: frames 0, 1, 2 and round again |
| HandleFrames.RerendersIff | libglycin-shim/src/lib.rs:449-487 | a request re-renders exactly when the image can be, another size is wanted, and a loader can be made |
| HandleFrames.AttachedOnce | libglycin-shim/src/lib.rs:60-70 | attaching makes one new object with one reference |
| HandleFrames.NewHandleIsAttached | libglycin-shim/src/lib.rs:211-223 | new loaders and encoders are fresh live handles on their way into an object |
| HandleFrames.ExtractionAttaches | libglycin-shim/src/lib.rs:497-502 | an extracted frame is attached, a missing one ends the call; the image is untouched |
| HandleFrames.EncodingAttaches | libglycin-shim/src/lib.rs:910-925 | encoding keeps the encoder and goes on to attach a fresh encoded image |
| HandleFrames.TouchedIsLive | libglycin-shim/src/types.rs:90-225 | whatever handle a step gives to the engine is live, and a loader is in its handle when needed |
| HandleFrames.DeadUseIsSeen | libglycin-shim/src/types.rs:90-225 | from any state, giving the engine a dead handle or an emptied loader would be noticed |
| HandleSafety.NothingLeaks | libglycin-shim/src/types.rs:90-225 | with no call running and no reference held, no object is left and every handle was released exactly once |
| HandleProgress.CallAdvances | libglycin-shim/src/lib.rs:264-503 | a running call can always take its next step, and whatever comes of it, fewer of at most seven remain |
| HandleProgress.OthersLeaveAlone | libglycin-shim/src/lib.rs:277-283 | no step of another thread moves or blocks a running call |
| HandleProgress.CanWindUp | libglycin-shim/src/types.rs:90-225 | whatever outcome each step meets, every reachable state can be continued until no call and no object is left and every handle was released exactly once |
| Gif.Decode | src/formats/gif.rs:21-76 | header, loop and its three accumulators compute the image, sized as the screen, or the first error |
| Gif.AccumulatedAllIff | src/formats/gif.rs:30-68 | rejecting at a running total is rejecting the whole-run total |
| Gif.AcceptedIff | src/formats/gif.rs:26-76 | accepted exactly when nonempty, fully read, each frame's product fits 16 bits with a matching buffer, and the totals are within limits; the frames come out in order |
| Gif.FirstErrorDecides | src/formats/gif.rs:30-74 | the first frame that breaks a limit decides which error; without one, the end of the stream and emptiness do |
| Gif.SquareFrameRefused | src/formats/gif.rs:33-36 | a 256 by 256 frame within every limit is refused |
| Sniff.StripLeadingWhitespace | src/sniff.rs:167-173 | the index loop drops exactly the leading blanks |
| Sniff.FindSvgOpenTag | src/sniff.rs:182-193 | the window loop finds an `<svg` tag wherever one is |
| Sniff.Detect | src/sniff.rs:114-155 | the chain of tests reports the first format whose test holds |
| Sniff.SignaturesExclusive | src/sniff.rs:114-155 | no input matches two signatures |
| Sniff.OrderIrrelevant | src/sniff.rs:114-155 | the tests can be made in any order |
| Sniff.DetectIff | src/sniff.rs:114-155 | a format is reported exactly when its signature is there |
| Sniff.SignatureIff | src/sniff.rs:114-155 | each format but SVG is reported exactly on its signature, written in characters |
| Sniff.SvgIff | src/sniff.rs:157-193 | SVG is reported exactly when the first 512 bytes, behind a mark and blanks, are an `<svg` tag or a declaration with one after it |
| Sniff.DetectExtends | src/sniff.rs:109-204 | more bytes never change a verdict |
| Sniff.DetectUsesProbe | src/sniff.rs:157-158 | only the first 512 bytes matter |

## Left out

- Codecs, XML tokenising, base64 and UTF-8 decoding: foreign code; decoded frames, events and payloads are inputs.
- XInclude.Expand: base64 decoding and the UTF-8 test are parameters of `Payload`, attributes are those the reader accepts, and writing to the in-memory buffer cannot fail.
- XInclude.Result: the event stream is an input beside the bytes the substring probe searches, so that the two belong together is not stated.
- Encoder.ImageEncoder.Encode: the codec is a parameter that may fail, so the encoded bytes themselves are foreign; metadata pairs, which no codec is given, are not modelled, and the `encode` feature is on.
- Encoder.ToRgba8: sizes are unbounded, which on a 64-bit machine is what the checked products compute; the row slice is read through the buffer it borrows from.
- Convert.ConvertLayout: as for Encoder.ToRgba8; allocation failure is not modelled.
- Textures.TransformTexture: the panic is an absent result; allocation failure is not modelled.
- Images.Image: ICC profile, CICP, text metadata, format name and sandbox posture are fields the pass never touches.
- Handles.Step: modelled on values, one atomic step per locked region or engine call, because the property is about interleavings; loader configuration values, error messages and null arguments are not tracked, and a caller only passes objects of the right type to which it holds a reference, as the C API demands. The values of a frame request are arbitrary when `Decide` reads them; that a task keeps the request alive until then is not tracked, since a request owns no handle.
- Gif.Decode: error texts are left out, and the memory limit only acts inside the codec, whose frames and failures are inputs.
- Sandbox layers, worker threads, GLib type registration, MIME tables and the file and stream readers: calls into the system.
- 16-bit and float channels: no sampler covers them; orientation treats such pixels as opaque bytes.
