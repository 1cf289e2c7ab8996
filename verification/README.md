# Kekstagram core in Dafny

A model of the logic of Kekstagram, a small photo-sharing front end. Its
centre is the square crop editor (`js/resizer.js`):

- the crop square, set and moved field by field and dragged with the mouse;
- the geometry of one redraw: where the image is drawn, the even-odd mask with its hole, the size label, and the dotted border walked around the square in four runs;
- the export of the cropped region.

Around it sits the upload flow (`js/upload.js`):

- the file-type gate;
- crop-form validation, the submit button and the error note it toggles;
- the form fields synced from the editor;
- the submit gate;
- the status message and disposal of the editor.

Then the gallery and the listing:

- the gallery overlay's selection, navigation and keys (`js/gallery.js`);
- the photo data model with its likes and subscribers (`js/photo-data.js`);
- the listing's filters, sorting, pages of twelve and address-hash handling (`js/pictures.js`);
- the preview's stats block and like button (`js/photo-preview.js`).

Last, the `getMessage` dispatcher (`js/check.js`).

Files, one module each:

| file | module | models |
|---|---|---|
| `wrappers.dfy` | `Wrappers` | `Option` |
| `web.dfy` | `Web` | JavaScript and browser primitives used by the code: the truncating `%`, the `\s` class, ASCII case folding of the `i` flag, `indexOf`, truthiness of an optional string, and what `location.hash` reads back, with the percent-encoding of its fragment |
| `geometry.dfy` | `Geometry` | `Square`, `Coordinate`, rectangles |
| `dotted_border.dfy` | `DottedBorder` | `_createBorder` / `_createBorderSide` as pure walks over distances along the path |
| `resizer.dfy` | `Cropper` | the `Resizer` state, `setConstraint`, `moveConstraint`, drag mode, `redraw` geometry, `exportImage` |
| `upload.dfy` | `Upload` | the upload flow |
| `photo_data.dfy` | `PhotoModel` | `PhotoData` |
| `stats.dfy` | `Stats` | the comments plural rule and the stats block shared by gallery and preview |
| `gallery.dfy` | `Gallery` | `Gallery` |
| `pictures.dfy` | `Pictures` | the listing in `js/pictures.js` |
| `photo_preview.dfy` | `Preview` | `PhotoPreview` |
| `check.dfy` | `Check` | `getMessage` |

State is immutable: each handler is a function from the old state to the new one.

Number handling:
- Crop geometry uses `real`, so the move and drag laws hold exactly.
- Counts and time values use `int`.
- Where the browser converts a number (a canvas dimension, `Math.floor`, `%`), the conversion is written out.

Things the browser or the environment supply become parameters:
- the natural size of the loaded image;
- the MIME type of the chosen file;
- `document.location`;
- the current time;
- the viewport test of the listing;
- the identity of subscribers.

Behaviours of the code worth knowing:

- **Render scheduling.** Every `setConstraint` requests its own animation frame. Nothing coalesces them; `pendingFrames` counts them.
- **Mask hole.** The hole is raised by the mask line width (6) above the crop square (`js/resizer.js:127-128`). The window therefore shows the image region `(x, y - 6)` of the square's size, not the square itself (`Cropper.HoleShowsRaisedRegion`).
- **Before the image loads** the crop square is `null`. Setting, moving, dragging, redrawing and exporting fail then, so they require a loaded editor.
- **Size 0.** The crop form accepts a size of 0, which leaves nothing to crop (`Upload.ZeroSizeAccepted`).
- **Negative size.** A negative side traces the mask hole the other way round. The even-odd fill still leaves it unshaded, as a window of the side's absolute size (`Cropper.NegativeSideLeavesWindow`).
- **Before the list arrives.** The hash listener is installed before the photos are requested (`js/pictures.js:260`). A photo hash that changes before they arrive reaches a gallery whose list is still `null`, and the handler throws (`Pictures.HashChangeBeforeLoadThrows`).
- **Empty file list.** The upload form reads the type of the first chosen file without checking that there is one, so an empty list throws (`Upload.FileChosen`).
- **Encoded addresses.** Assigning to `location.hash` percent-encodes the fragment. An address with a space, a quote or a non-ASCII character comes back encoded, the search by address then finds no picture, and the gallery stays where it was (`Pictures.EncodedAddressKeepsSelection`).
- **Comment suffix.** Both views use the rule of `_getPluralCommentsCount`, which differs from the Russian plural for counts ending in 11 to 14 above 100 (see Findings).
- **Mouse press during a drag.** A press during a drag re-enters drag mode at the new position rather than being ignored.
- **Corners of the dotted border.**
  - The three corners between runs keep the dot rhythm exactly (`DottedBorder.CornerContinuity`).
  - The fourth corner, where the last run meets the first, has a seam of `step - final overshoot`. This can be anything in `[0, step)` (`DottedBorder.ClosingSeam`).
  - For a side of 13 the last dot is 2 from the first, closer than the dot size (`DottedBorder.ClosingSeamExample`). So the rhythm is unbroken at the fourth corner only for sizes whose walk closes on a whole step.
- **Export size.** The export canvas takes the side as its width and height through the unsigned-integer reflection of `canvas.width`: truncated, wrapped modulo 2^32, and falling back to 300 by 150 above 2^31 - 1. A side from -2^31 to -1 therefore exports a 300 by 150 picture, not an empty one. A side strictly between -1 and 0 truncates to 0 and exports an empty picture, and a side below -2^31 wraps like any other.

## Model

| member | source | states |
|---|---|---|
| `Web.JsRemainder` | js/gallery.js:158 | JavaScript's `%` keeps the sign of the dividend and agrees with the mathematical remainder on non-negative numbers |
| `Web.IsJsWhitespace` | js/pictures.js:269 | the characters `\S` excludes: tab, line feed, vertical tab, form feed, carriage return, space, no-break space, the Unicode space separators, the line and paragraph separators and the byte-order mark |
| `Web.Contains` | js/pictures.js:245 | `indexOf(sub) !== -1` |
| `Web.ContainsIff` | js/pictures.js:245 | `indexOf` finds the piece exactly when it occurs somewhere in the string |
| `Web.HashAfterAssigning` | js/gallery.js:190 | what `location.hash` reads back after an assignment: empty, or '#' followed by a non-empty fragment of characters stored as they are; a written fragment made of such characters reads back unchanged, with a '#' put in front when it had none |
| `Web.EncodeFragmentChar` | js/gallery.js:190 | a character is stored as it is exactly when it is a printable ASCII character other than space, '"', '<', '>' and '`'; tab, line feed and carriage return are dropped; anything else becomes percent-escapes |
| `Web.EncodeFragment` | js/gallery.js:190 | the stored fragment consists only of characters that are stored as they are |
| `Web.Utf8` | js/gallery.js:190 | a character becomes one to four bytes, and an ASCII character the one byte of its code |
| `Web.PercentEncode` | js/gallery.js:190 | each byte becomes three characters, all stored as they are |
| `Web.SafeIsStoredUnchanged` | js/gallery.js:190 | a fragment of characters stored as they are is stored unchanged |
| `Web.EncodeAppend` | js/gallery.js:190 | encoding two pieces one after the other is encoding them together |
| `Web.PrefixStaysAsItIs` | js/gallery.js:190 | a prefix of characters stored as they are stays ahead of the encoded rest |
| `Web.HashOfMarkedPrefix` | js/gallery.js:190 | writing '#', such a prefix and any text reads back as written except that the text is encoded |
| `Web.HashOfBarePrefix` | js/pictures.js:245 | writing such a prefix and any text without '#' reads back with '#' in front and the text encoded |
| `Web.QuoteReadsBackEncoded` | js/gallery.js:190 | a '"' in a photo address reads back as `%22` |
| `Web.SafeHasNoWhitespace` | js/pictures.js:269 | a stored fragment has no whitespace, so `\S+` can take all of it |
| `Web.OccursConcat` | js/pictures.js:269 | two pieces found one right after the other are found together |
| `Web.HashReadBackIsStable` | js/gallery.js:41 | writing back the hash that was read leaves it unchanged |
| `Web.EqualsIgnoringCaseIffUpper` | js/upload.js:31 | case-insensitive comparison is equality of the upper-case forms |
| `DottedBorder.Walk` | js/resizer.js:222-232 | a run places at least one dot exactly when its start offset is within the side, and always ends with a positive overshoot |
| `DottedBorder.WalkShape` | js/resizer.js:212-232 | dots start at the offset and are exactly one step apart; every dot lies between the offset and the corner; the overshoot is the last dot plus one step past the corner, so at most one step when a dot was placed, and otherwise the distance by which the start was already past the corner |
| `DottedBorder.CreateBorderSide` | js/resizer.js:212-233 | the loop draws one dot at `start + direction·t` for each distance `t` of the walk, in order, and returns that walk's overshoot |
| `DottedBorder.RunGeometry` | js/resizer.js:213-232 | the loop test on coordinates holds exactly while the distance along the side is at most the side length, and the returned value is that distance minus the side length |
| `DottedBorder.BorderRuns` | js/resizer.js:190-194 | the four runs start at 0, then each at the overshoot of the one before |
| `DottedBorder.CreateBorder` | js/resizer.js:179-196 | the border is the four runs top, right, bottom and left from the corners of the square inset by half the dot size, with side `sideSize - lineWeight`, each starting at the previous overshoot; every dot lies on that inset outline |
| `DottedBorder.PerimeterIsOneWalk` | js/resizer.js:190-194 | the four runs with their carried offsets place the dots of one walk around the whole perimeter |
| `DottedBorder.PerimeterEvenlySpaced` | js/resizer.js:190-194 | around the whole path, consecutive dots are exactly one step apart |
| `DottedBorder.CornerContinuity` | js/resizer.js:190-194 | across each of the three corners between runs, the distance from the last dot before the corner to the first after it is exactly one step |
| `DottedBorder.NoDotsIffDegenerate` | js/resizer.js:180-182 | no run places a dot exactly when the side is shorter than the dot size |
| `DottedBorder.ClosingSeam` | js/resizer.js:190-194 | at the first corner, where the walk closes, the last dot lies `step - final overshoot` before the first, which is in `[0, step)` |
| `DottedBorder.ClosingSeamExample` | js/resizer.js:179-194 | with side 13, dot size 6 and gap 7, the runs hold 1, 1, 0 and 1 dots, and the last dot is 2 from the first |
| `Cropper.NewResizer` | js/resizer.js:75 | before the image loads there is no crop square and no drag |
| `Cropper.InitialConstraint` | js/resizer.js:29-40 | the initial square has three quarters of the shorter image side, is centred on the image and lies inside it |
| `Cropper.OnImageLoad` | js/resizer.js:17-44 | on load the canvas takes the image and the crop square becomes the initial one |
| `Cropper.SetConstraint` | js/resizer.js:338-355 | exactly the supplied fields are overwritten, the others kept, and one frame is requested |
| `Cropper.MoveConstraint` | js/resizer.js:326-331 | each field moves by its delta, an omitted delta counting as 0, with one frame requested |
| `Cropper.MoveIsSetOfSums` | js/resizer.js:326-331 | a move is a `setConstraint` of the three shifted fields; this is the source's definition of a move, recorded as a lemma |
| `Cropper.MoveThenMoveBack` | js/resizer.js:326-331 | moving by `(dx, dy)` and back restores the square, and the side never changes |
| `Cropper.MovesCompose` | js/resizer.js:326-331 | two moves give the square of one move by the summed deltas, with one frame more |
| `Cropper.SetConstraintIdempotent` | js/resizer.js:338-349 | setting the same fields twice leaves the square as one setting does |
| `Cropper.EnterDragMode` | js/resizer.js:243-247 | entering drag mode remembers the press position and changes nothing else |
| `Cropper.ExitDragMode` | js/resizer.js:253-257 | leaving drag mode forgets the cursor and changes nothing else |
| `Cropper.UpdatePosition` | js/resizer.js:265-270 | a drag step moves the square by the remembered cursor minus the new one, keeps the side, and remembers the new position |
| `Cropper.HandleMouse` | js/resizer.js:276-295 | a press enters drag mode; a move during a drag is a drag step; a release leaves drag mode; without a drag only a press has an effect |
| `Cropper.DragTelescopes` | js/resizer.js:265-270 | over a whole drag the square moves by start minus end position, whatever the path, with one frame per step |
| `Cropper.DragScenario` | js/resizer.js:265-270 | the square (20, 20, 50) pressed at (50, 50) and dragged to (40, 60) ends at (30, 10, 50) |
| `Cropper.ReleaseStopsDragging` | js/resizer.js:284-295 | after a release, moves do nothing |
| `Cropper.Redraw` | js/resizer.js:103-157 | the image is drawn so that the canvas centre shows the square's centre; the outer mask contour is the canvas; the hole is the square's size at `(-side/2, -side/2 - 6)`; the label sits above the hole, reads the natural size and is bounded by the side; the border dots lie on the hole inset by 3, and there are none exactly when the side is below 6 |
| `Cropper.HoleShowsRaisedRegion` | js/resizer.js:106-133 | whatever the sign of the side, a canvas point is in the hole exactly when the image point drawn there is inside the square's size at `(x, y - 6)` |
| `Cropper.EnclosingCount` | js/resizer.js:113-136 | no more outlines enclose a point than the path has |
| `Cropper.EvenOddFilled` | js/resizer.js:136 | the `evenodd` fill rule: a point is filled when an odd number of the path's outlines encloses it |
| `Cropper.MaskPath` | js/resizer.js:117-135 | the shading path is the canvas outline followed by the hole's outline |
| `Cropper.Darkened` | js/resizer.js:113-136 | the shaded points are those the even-odd rule fills on that path |
| `Cropper.MaskIsEvenOdd` | js/resizer.js:113-136 | under the even-odd fill of the two outlines, inside the canvas exactly the points outside the hole are darkened |
| `Cropper.MaskOutsideCanvas` | js/resizer.js:113-136 | outside the canvas only the part of the hole that sticks out would be filled |
| `Cropper.NegativeSideLeavesWindow` | js/resizer.js:124-136 | with a negative side the hole, traced the other way round, still contains the point a line width above the centre and leaves it unshaded |
| `Cropper.CanvasDimension` | js/resizer.js:384-385 | a canvas dimension takes the floor of a non-negative side below 2^31, the default for a side from -2^31 to -1, and 0 for a side strictly between -1 and 0 |
| `Cropper.Truncate` | js/resizer.js:384-385 | a side is cut toward zero: a non-negative side to the whole number at or below it, a negative one to the whole number at or above it, less than one away |
| `Cropper.Export` | js/resizer.js:373-391 | the exported picture is `side` by `side` (as a canvas dimension) and its pixel `(i, j)` shows the image at `(x + i, y + j)` |
| `Cropper.ExportCopiesCoveredPixels` | js/resizer.js:384-388 | a whole-number square inside the image exports exactly the source pixels it covers |
| `Cropper.NegativeSideExportsDefaultSize` | js/resizer.js:384-385 | a side from -2^31 to -1 gives a 300 by 150 picture |
| `Upload.FileTypeGate` | js/upload.js:12-31 | a type passes exactly when its upper-case form is `IMAGE/` followed by one of GIF, JPEG, PNG, SVG+XML |
| `Upload.FileTypeAccepted` | js/upload.js:12-31 | the type test: the whole type equals `image/` and one of the four keys, ignoring ASCII case |
| `Upload.FileTypeGateIsAnchored` | js/upload.js:31 | an accepted type followed by anything more is rejected |
| `Upload.RejectedByLength` | js/upload.js:31 | only types of 9, 10 or 13 characters can pass |
| `Upload.RejectedBySeventhChar` | js/upload.js:31 | only types whose seventh character is G, J, P or S in either case can pass |
| `Upload.CaseDoesNotMatter` | js/upload.js:31 | upper-casing a type never changes whether it passes |
| `Upload.ListedTypesAccepted` | js/upload.js:12-17 | each listed type passes, in lower or upper case |
| `Upload.FileTypeRejections` | js/upload.js:31 | `image/bmp`, and the SVG type without its '+', are rejected |
| `Upload.FileChosen` | js/upload.js:174-204 | an empty file list throws; an accepted first file shows the uploading message; any other shows the error message, and nothing else changes |
| `Upload.FileRead` | js/upload.js:181-198 | a read file replaces the editor with a new one, shows the crop form and hides the message, keeping its markup and style; the fields, controls and preview are kept |
| `Upload.ResizeFormIsValid` | js/upload.js:74-87 | valid exactly when no field is negative and the square fits within the natural width and height (a size of 0 passes) |
| `Upload.ZeroSizeAccepted` | js/upload.js:78-86 | a size of 0 at a position within the image passes validation |
| `Upload.InitialFieldsAreValid` | js/upload.js:206-214 | the floored fields of the initial square always pass validation |
| `Upload.ValidateResizeForm` | js/upload.js:89-105 | valid enables submit and removes the note; invalid disables submit and leaves exactly one note, never a second |
| `Upload.ValidateIsIdempotent` | js/upload.js:89-105 | repeating a validation with the same outcome changes nothing |
| `Upload.RequeryErrorNote` | js/upload.js:257-258 | a form change re-reads the note reference from the controls |
| `Upload.UpdateResizeForm` | js/upload.js:206-214 | an editor change validates the fields as they still are, then writes `floor(x)`, `floor(y)`, `floor(side)` into them; the stage, editor, preview and message are kept |
| `Upload.OnResizeFormChange` | js/upload.js:216-221 | a form change validates and hands all three fields to the editor; the fields, stage, preview and message are kept |
| `Upload.FieldsSurviveRoundTrip` | js/upload.js:206-221 | whole-number fields come back unchanged from the editor, and submit is disabled exactly when they are invalid |
| `Upload.SubmitResize` | js/upload.js:244-254 | submitting exports the crop into the filter form only when the form is valid, changing nothing else; otherwise nothing changes |
| `Upload.ValidSubmitExportsCoveredPixels` | js/upload.js:244-249 | a valid whole-number submit exports exactly the source pixels under the square |
| `Upload.ShowMessage` | js/upload.js:143-160 | the default text replaces only an absent or empty message; only the error action gets the error style |
| `Upload.HideMessage` | js/upload.js:163-165 | hiding keeps the message and its style |
| `Upload.CleanupResizer` | js/upload.js:48-53 | cleanup always leaves no editor and changes nothing else |
| `Upload.CleanupIsIdempotent` | js/upload.js:48-53 | cleaning up twice is cleaning up once |
| `Upload.ResetResize` | js/upload.js:228-236 | resetting the crop form disposes of the editor and goes back to choosing a file; the fields, controls, preview and message are kept |
| `Upload.ResetFilter` | js/upload.js:267-272 | resetting the filter form goes back to cropping with the same editor; nothing else changes |
| `Upload.SubmitFilter` | js/upload.js:280-289 | submitting the filter form does what resetting the crop form does: the editor is disposed of and a file is chosen anew, and nothing else changes |
| `PhotoModel.NewPhotoData` | js/photo-data.js:8-23 | a new photo is not liked and has no subscribers |
| `PhotoModel.DefaultsWithoutRecord` | js/photo-data.js:52-99 | without data the likes and comments are 0, the address is empty and the date is the current time |
| `PhotoModel.Likes` | js/photo-data.js:52-54 | the record's likes, or 0 without a record |
| `PhotoModel.Comments` | js/photo-data.js:81-83 | the record's comments, or 0 without a record |
| `PhotoModel.Date` | js/photo-data.js:89-91 | the record's date, or the current time without a record |
| `PhotoModel.ImageSrc` | js/photo-data.js:97-99 | the record's address, or the empty string without a record |
| `PhotoModel.AddSubscriber` | js/photo-data.js:28-32 | the object is subscribed afterwards, earlier subscribers keep their order, the list grows by at most one, and no duplicate appears |
| `PhotoModel.AddSubscriberIdempotent` | js/photo-data.js:28-32 | subscribing the same object twice is subscribing it once |
| `PhotoModel.Listeners` | js/photo-data.js:39-46 | the subscribers called are exactly those that have the handler, in subscription order |
| `PhotoModel.FireEvent` | js/photo-data.js:39-46 | the loop calls `_on<name>` on exactly the subscribers that have it, in subscription order |
| `PhotoModel.SetLike` | js/photo-data.js:69-75 | the flag always becomes the argument. With data, likes move by +1 or -1, nothing else in the record changes, and exactly the subscribers with `_onPhotoDataChange` are notified in order. Without data, only the flag changes and no one is notified |
| `PhotoModel.LikeThenUnlikeRestores` | js/photo-data.js:69-75 | a like followed by an unlike restores the count |
| `PhotoModel.DoubleLikeAddsTwo` | js/photo-data.js:71-72 | liking twice adds two |
| `Stats.CommentsSuffix` | js/gallery.js:154-167 | the rule both views use: 10 to 20 give ' комментариев'; otherwise a remainder of 2 to 4 gives exactly ' комментария', a remainder of 1 exactly ' комментарий', and anything else, a negative count included, ' комментариев' |
| `Stats.RussianSuffix` | js/photo-preview.js:76-89 | the corrected rule these lines evidently intend, the Russian plural: ' комментарий' after a last digit 1, ' комментария' after 2-4, each except when the last two digits are 11-14, ' комментариев' otherwise |
| `Stats.RussianSuffixPeriodic` | js/photo-preview.js:76-89 | the corrected rule depends only on the last two digits |
| `Stats.SuffixesDisagreeIff` | js/gallery.js:154-167 | for every count, the code's rule and the Russian rule disagree exactly when the count is at least 100 and its last two digits are 11 to 14 |
| `Stats.SuffixDiffersAt111` | js/gallery.js:154-167 | at 111 the code's rule says ' комментарий', the Russian rule ' комментариев' |
| `Stats.StatsOf` | js/photo-preview.js:57-68 | after a stats update, the liked class is present exactly when the photo is liked, the like text and comment count are the photo's, and the suffix is the one `_getPluralCommentsCount` gives for that count |
| `Gallery.NewGallery` | js/gallery.js:7-10 | a new gallery has no list (`_data` is `null`), no photo and index 0 |
| `Gallery.PictureByNumber` | js/gallery.js:174-180 | a picture is returned exactly when the number is an index of the list, and it is the picture at that index |
| `Gallery.FirstWithSrc` | js/gallery.js:126-133 | the index found is the first whose picture has the address; none is found only when no picture has it |
| `Gallery.Select` | js/gallery.js:117-135 | a negative number keeps the selection without reading the list; any other id throws when there is no list; with a list, a number in range selects that picture, a number out of range or an unknown address keeps the selection, and an address selects the first picture that has it |
| `Gallery.SetCurrentPicture` | js/gallery.js:117-146 | a failed selection throws; after selecting, a current photo is shown with its image, its comments and their suffix, and the likes of the list at the current index; no list or a stale index throws |
| `Gallery.SelectedStateShowsItsPhoto` | js/gallery.js:117-146 | when there is a list and index and photo agree with it, selecting never throws and shows the photo's own stats |
| `Gallery.NoListThrows` | js/gallery.js:126-127 | before the list arrives, naming a picture by its address throws |
| `Gallery.ShownStatsFollowLikes` | js/gallery.js:103-111 | after a like change, reselecting shows the new count and class |
| `Gallery.SetPictures` | js/gallery.js:95-97 | replacing the list keeps the index and the photo |
| `Gallery.SwitchPhoto` | js/gallery.js:187-192 | the hash reads back as `#photo/` and the encoded address of picture `n` when `n` is an index; a negative `n` does nothing; any other `n` does nothing with a list and throws without one |
| `Gallery.PhotoHash` | js/gallery.js:190 | the hash assigned for a picture: `#photo/` followed by its address |
| `Gallery.PhotoHashReadsBack` | js/gallery.js:190 | the picture hash reads back with its address encoded |
| `Gallery.SwitchPhotoAssignsHash` | js/gallery.js:187-192 | the hash a switch leaves is what the address bar reads after the picture's hash is assigned |
| `Gallery.NextPicture` | js/gallery.js:197-199 | forward names the next picture in the hash, does nothing at the end, and throws without a list |
| `Gallery.PreviousPicture` | js/gallery.js:204-206 | back names the previous picture in the hash, does nothing at the start, and throws without a list otherwise |
| `Gallery.Hide` | js/gallery.js:40-47 | hiding clears the hash and the overlay |
| `Gallery.Show` | js/gallery.js:29-35 | showing makes the overlay visible and changes nothing else |
| `Gallery.OnKeyDown` | js/gallery.js:83-89 | 27 hides, 37 goes back, 39 goes forward, any other key does nothing |
| `Gallery.OnPhotoClick` | js/gallery.js:54-56 | a click on the photo acts as the right arrow |
| `Gallery.OnCloseClick` | js/gallery.js:63-65 | a click on the cross acts as Escape |
| `Gallery.NavigationKeepsSelection` | js/gallery.js:83-89 | keys never change the selected index, photo or list, and never throw when there is a list |
| `Pictures.Insert` | js/pictures.js:95-97 | inserting into a sorted list keeps it sorted and adds exactly the one photo |
| `Pictures.SortDesc` | js/pictures.js:95-97 | sorting with the comparator `b - a` gives a permutation in non-increasing key order |
| `Pictures.FreshOnly` | js/pictures.js:100-103 | exactly the photos dated at most 14 days before now are kept, each as often as it occurs |
| `Pictures.ApplyFilter` | js/pictures.js:91-116 | popular and discussed are permutations sorted by likes and comments; new keeps exactly the photos of the last 14 days, sorted by date; any other id is the loaded list |
| `Pictures.FilterShowsLoadedPhotos` | js/pictures.js:91-116 | no filter shows a photo more often than it was loaded |
| `Pictures.PageSlice` | js/pictures.js:236-238 | page `p` is items `12p` up to `12p + 12`, cut at the end of the list, and empty past it |
| `Pictures.NeedToRenderNextPage` | js/pictures.js:167-169 | another page is due when the pages rendered so far stop short of the end of the list and the viewport has room |
| `Pictures.NextPageDueIff` | js/pictures.js:167-169 | a page is due exactly when the viewport has room and some photo is not shown yet |
| `Pictures.NextPageExtends` | js/pictures.js:236-240 | appending the next page to pages 0 to `p` gives pages 0 to `p + 1` |
| `Pictures.RenderWhileDue` | js/pictures.js:255-257 | pages are appended until no further page is due, and the rendered photos stay pages 0 to the current page |
| `Pictures.RenderReplacing` | js/pictures.js:224-257 | replace mode starts again from page 0 with nothing rendered, and renders at least the first page |
| `Pictures.OnScroll` | js/pictures.js:153-160 | a scroll renders more pages only when one is due, stops only when no page is due, and changes nothing but the page and the rendered photos |
| `Pictures.SetActiveFilter` | js/pictures.js:82-120 | the active filter again does nothing; another filter replaces the filtered list, hands it to the gallery and renders it afresh until no page is due |
| `Pictures.NonSpaceRun` | js/pictures.js:269 | `\S+` takes the longest whitespace-free run |
| `Pictures.MatchStart` | js/pictures.js:269 | the position found is the leftmost from which `#photo/` is followed by a character other than whitespace; none is found only when there is no such position |
| `Pictures.MatchPhoto` | js/pictures.js:269 | there is no match exactly when `#photo/` followed by a character other than whitespace occurs nowhere; a match captures, at the leftmost such place, the longest run without whitespace after `#photo/` |
| `Pictures.ParsesPhotoHash` | js/pictures.js:268-269 | the hash the gallery writes for any address with a non-empty encoding is parsed back to the encoded address |
| `Pictures.ParsesSafePhotoHash` | js/pictures.js:268-269 | an address of characters stored as they are is parsed back unchanged |
| `Pictures.ParsesUnencodedHash` | js/pictures.js:269 | `#photo/` followed by a non-empty address without whitespace captures that address |
| `Pictures.SafePhotoHashParses` | js/pictures.js:269 | a picture hash whose address is stored as it is captures that address |
| `Pictures.NoWhitespaceRunIsWhole` | js/pictures.js:269 | a string without whitespace is taken whole |
| `Pictures.OnHashChange` | js/pictures.js:268-274 | a hash naming a photo selects it by address and shows the gallery, and throws when the selection throws; any other hash changes nothing |
| `Pictures.HashChangeBeforeLoadThrows` | js/pictures.js:260-274 | a photo hash arriving before the list throws |
| `Pictures.HashChangeSelectsFound` | js/pictures.js:268-274 | a hash naming the address of picture `k`, which no earlier picture has, selects `k` and opens the gallery |
| `Pictures.HashChangeKeepsUnfound` | js/pictures.js:268-274 | a hash naming an address no picture has keeps the current picture and opens the gallery |
| `Pictures.PhotoHashSelectsFound` | js/pictures.js:268-274 | a picture hash with an address stored as it is selects the first picture with that address |
| `Pictures.PhotoHashKeepsUnfound` | js/pictures.js:268-274 | a picture hash naming an address no picture has keeps the current picture |
| `Pictures.OnThumbnailClick` | js/pictures.js:244-246 | a click clears a hash that contains 'photo' and otherwise leaves `#photo/` and the clicked photo's encoded address |
| `Pictures.ClickOpensThenCloses` | js/pictures.js:245 | the first click leaves the hash the gallery would write for the photo, and the second clears it |
| `Pictures.PhotoHashMentionsPhoto` | js/pictures.js:245 | every picture hash contains 'photo' |
| `Pictures.NextThenHashChangeSelectsNext` | js/pictures.js:268-274 | going forward and handling the resulting hash change selects the next picture, when its address is non-empty, stored as it is, unique so far and not already the hash |
| `Pictures.EncodedAddressKeepsSelection` | js/pictures.js:268-274 | when the next address comes back encoded and no picture has the encoding, going forward and handling the hash change keeps the current picture |
| `Preview.SetData` | js/photo-base.js:30-35 | setting the data subscribes the preview to the photo |
| `Preview.UpdateStats` | js/photo-preview.js:57-68 | the liked class is present exactly when the photo is liked, and the texts are the photo's counts |
| `Preview.Render` | js/photo-preview.js:37-42 | without a photo nothing is drawn; with one, its image and stats are shown |
| `Preview.OnLikeClick` | js/photo-preview.js:29-31 | a click calls `setLike` with the negation of the liked class, and the stats follow when the preview is notified |
| `Preview.SubscribedPreviewHears` | js/photo-data.js:39-46 | a subscribed preview with a change handler is notified of every like change of a photo with data |
| `Preview.LikeClickToggles` | js/photo-preview.js:29-31 | one click flips the liked class and moves the count by one |
| `Preview.TwoClicksRestore` | js/photo-preview.js:29-31 | two clicks leave the photo and the stats block as they were |
| `Preview.ClickWithoutRecordAlwaysLikes` | js/photo-preview.js:29-31 | without data the class never changes, so every click is a like |
| `Check.DigitChar` | js/check.js:11 | a digit is written as its character |
| `Check.NatDigits` | js/check.js:11 | numbers are written in decimal without leading zeros |
| `Check.DigitsRoundTrip` | js/check.js:11 | reading the decimal digits back gives the number |
| `Check.Decimal` | js/check.js:7 | `String(n)` of an integer: a minus sign exactly for a negative number, then decimal digits |
| `Check.DecimalRoundTrip` | js/check.js:7 | reading the decimal form back, sign and digits, gives the number |
| `Check.Show` | js/check.js:7-11 | what `+` with a string makes of each argument shape: `true`/`false`, the decimal form, the elements joined by commas, `undefined` |
| `Check.SumAppend` | js/check.js:22-24 | the sum of two pieces is the sum of their sums, so the fold direction of `reduce` does not matter |
| `Check.DotWithOnes` | js/check.js:16-18 | the artefact area against a row of ones is the plain sum |
| `Check.DotProduct` | js/check.js:14-18 | the loop computes the sum of `a[i]*b[i]` |
| `Check.Reduce` | js/check.js:22-24 | `reduce` without an initial value computes the sum of a non-empty array |
| `Check.GetMessage` | js/check.js:5-30 | `true` gives the animated message with `b`; `false` gives the not-animated message; two numbers give `a` objects and `b*4` attributes; a non-empty array with an equally long non-empty array gives the dot product; with any other `b` except `undefined` it gives the sum; `undefined` where `length` is read throws; any other shape gives no message |

## Left out

- Canvas drawing (styles, dashes, `arc`, `fill`, `fillText`, `save`/`restore`) and PNG encoding through `toDataURL`. The model keeps only the coordinates and sizes they are given.
- Decoding and smoothing of the image at fractional positions: `Cropper.Export` marks such pixels `Resampled`.
- Render scheduling through `requestAnimationFrame`, and the `resizerchange` event that each frame dispatches. Frames are only counted.
- The solid-border branch of `_createBorder` (`strokeRect`). `redraw` always passes the line type 'dotted'.
- `getConstraint`: it returns the square itself, and the model reads the field directly.
- The asynchronous loading of the `Image` and of the `FileReader`. They are reduced to `OnImageLoad` and `FileRead`.
- DOM work: adding and removing listeners, `setElement`, `remove`, creating elements, class toggling beyond the states named in the model.
  - `hide` calls `removeAttribute` where it means to remove the like listener. That has no effect on the state modelled here.
- `Gallery._onLikeClick`. It calls a `like` method that the photo data model does not have, so it throws in every call.
- Network and storage: the XHR of `getPictures` and its failure state, `localStorage` for the saved filter, `restoreActiveFilter` and `getCheckedFilter`, and `docCookies` with `cookieEspires`.
- The filter form's class map and the random upload background.
- The scroll debounce and the image timeouts. The viewport test is a parameter (`viewportHasRoom`), a function of the number of rendered photos.
- js/photo.js (thumbnail DOM and load timeouts) and js/inherit.js (prototype plumbing). js/photo-base.js appears only through the subscription in `Preview.SetData` and the change handler.
- Floating-point rounding. Crop geometry is exact `real` arithmetic, and form fields that are not numbers (`NaN` from unary `+`) are not modelled.
- Numbers in `getMessage` are integers. Strings and other objects as arguments are not modelled, and neither is the text form of fractional numbers.
- Check.GetMessage: writes every integer in plain decimal; JavaScript writes numbers of 10^21 and above in exponent form and rounds integers beyond 2^53, so for such numbers the model's text differs from the browser's.
- Lone surrogates in an address, which the browser replaces by U+FFFD before encoding: a Dafny `char` cannot hold one, so the case does not arise.
- A string id or a non-integer number passed to `Gallery.setCurrentPicture` as a number is not modelled.
- Pictures.SortDesc: states a permutation in non-increasing key order and not the stability of `Array.prototype.sort`. Stable sorting is only guaranteed by newer engines.
- Pictures.RenderWhileDue: the viewport test is an arbitrary function of the rendered count, not a measurement of the layout.

## Findings

| source | as written | input that shows it | evidently intended | confidence | as-written member | corrected member |
|---|---|---|---|---|---|---|
| js/gallery.js:154-167 (the same rule in js/photo-preview.js:76-89) | only 10 to 20 are treated as the genitive plural; otherwise the last digit alone picks ' комментарий' (1) or ' комментария' (2-4) | 111 comments give "111 комментарий" and 112 give "112 комментария" (`Stats.SuffixDiffersAt111`); the two rules differ exactly at counts of 100 or more ending in 11 to 14 (`Stats.SuffixesDisagreeIff`) | the Russian rule: the last two digits 11-14 take ' комментариев' for every count, so "111 комментариев" | not executed | `Stats.CommentsSuffix` | `Stats.RussianSuffix` |
