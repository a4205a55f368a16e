# ColorCalc colour conversions and record store, in Dafny

ColorCalc is a single-screen React Native app (`App.js`). It converts a colour
between its `#RRGGBB` hex form, its `r, g, b` byte triple and its
`hsl(h, s%, l%)` text. It keeps a history of conversions and a list of
favourites. This project models the core of that app.

- `text.dfy` (`Text`): the digit strings the converters read and write.
  - `parseInt(s, 16)` on hexadecimal digits.
  - `toString(16)` on a non-negative integer.
  - ASCII `toUpperCase`.
  - The decimal text a template literal writes for an integer.
- `converter.dfy` (`Converter`): `hexToRgb`, `rgbToHex`, `hexToHsl` and `rgbToHsl`.
  - The HSL transform runs over exact reals.
  - `Math.round(x)` is `(x + 0.5).Floor`.
- `store.dfy` (`Store`): the screen state and every handler that changes it, each as a function from the state before an event to the state after it.
  - The handlers: `handleHexChange`, `handleRgbChange` with `validateValue`, `handleHexSubmit`, `handleRgbSubmit`, `toggleFavorite`, `deleteFromHistory` and `deleteFromFavorites`.
  - `Inv` ties the lists together:
    - history ids are unique;
    - every history record is a valid conversion of its hex;
    - favourites mirrors the flagged part of history;
    - the RGB boxes hold bytes or nothing.
- `wrappers.dfy` (`Wrappers`): `Option`.

Some JavaScript behaviour is written out explicitly:
- An unset RGB box parses to NaN. `NaN << 16` and `NaN << 8` are 0, but `+ NaN` makes the sum NaN.
  - `toString(16)` of NaN is "NaN".
  - `slice(1)` then upper-casing gives "AN", so the hex is "#AN".
  - The HSL text comes out as `hsl(NaN, NaN%, NaN%)`.
- A string id never equals a numeric id under `===`.

The `Math.random()` id of a new record is a parameter of the submit handlers.

The evident intent is that "Convert RGB" creates no record unless all three
boxes hold numbers. The code does not check the boxes: it appends a NaN record.
The model follows the code (`Store.SubmitRgb`). Under "Findings", the guarded
version is the corrected one.

## Model

| member | source | states |
|---|---|---|
| `Converter.HexToRgb` | App.js:47-55 | 'Invalid Hex' exactly when the input is not '#' plus six hex digits (either case). The `null` branch is unreachable. Otherwise the bytes are the base-16 values of the three digit pairs. |
| `Converter.HexToRgbExample` | App.js:47-55 | `#336699` reads as 51, 102, 153. `#33669` and `336699` (no '#') are invalid. |
| `Converter.RgbToHex` | App.js:57-59 | For bytes, the text is '#' and then the two upper-case hex digits of r, g and b, in that order. It is a valid hex colour. |
| `Text.ToBase16LeadingOne` | App.js:58 | `(16^k + v).toString(16)` is "1" followed by the k zero-padded digits of v. This is why `slice(1)` leaves exactly six digits. |
| `Converter.RgbHexRoundTrip` | App.js:47-59 | Decoding the hex that `rgbToHex` writes for bytes gives the same bytes back. |
| `Converter.HexRgbRoundTrip` | App.js:47-59 | Re-encoding the bytes of a valid hex gives the input back, upper-cased. |
| `Converter.PairRoundTrip` | App.js:53 | A digit pair re-encodes to its own two digits, upper-cased. |
| `Converter.Round` | App.js:82 | `Math.round` gives the integer within half a unit below and strictly under half a unit above. |
| `Converter.HueTurns` | App.js:74-79 | For a non-grey colour, the switch hue divided by 6 is in [0, 1). |
| `Converter.Saturation` | App.js:73 | For a non-grey colour, the saturation is in (0, 1] on both sides of `l > 0.5`. |
| `Converter.TieBreakImmaterial` | App.js:97-101 | When two channels tie for the maximum, every arm of the switch they could select gives the same hue. Red-first priority is therefore harmless. |
| `Converter.HslOf` | App.js:85-105 | Hue is within 0..360, saturation and lightness within 0..100. A grey has hue and saturation 0 and lightness `round(v*100/255)`. |
| `Converter.RgbToHsl` | App.js:85-106 | The result is the text `hsl(h, s%, l%)` of an in-range triple. |
| `Converter.HexToHsl` | App.js:61-83 | The result is the text `hsl(h, s%, l%)` of an in-range triple. |
| `Converter.HexToHslAgrees` | App.js:61-106 | The two copies of the transform agree: `hexToHsl(hex)` is `rgbToHsl` of the bytes `hexToRgb(hex)` reads. |
| `Converter.RgbToHexKeepsHsl` | App.js:57-106 | The hex written for some bytes converts to the same HSL as the bytes themselves. |
| `Converter.GreyHsl` | App.js:92-93 | A grey converts to `hsl(0, 0%, l%)`. |
| `Converter.BlackAndWhiteHsl` | App.js:85-106 | Black is `hsl(0, 0%, 0%)` and white is `hsl(0, 0%, 100%)`. |
| `Converter.HslOfExample` | App.js:85-105 | 51, 102, 153 has hue 210, saturation 50 and lightness 40. |
| `Converter.HexToHslExample` | App.js:61-83 | `#336699` converts to `hsl(210, 50%, 40%)`. |
| `Text.ParseHex` | App.js:53 | `parseInt(s, 16)` of k > 0 hex digits is below 16^k. |
| `Text.ParseHexPair` | App.js:53 | Two digits parse to 16 times the first digit plus the second. |
| `Store.InitialInv` | App.js:7-15 | The initial state ('#', empty results, empty boxes, empty lists) satisfies the invariant. |
| `Store.PrefixHash` | App.js:108-114 | The stored text starts with '#', ends with the input, and is the input itself when the input already starts with '#'. |
| `Store.PrefixHashIdempotent` | App.js:108-114 | Normalising twice is the same as normalising once. |
| `Store.HandleHexChange` | App.js:108-114 | Only the hex box changes, to the normalised text: it starts with '#', ends with the typed text, and is the typed text itself when that already starts with '#'. The invariant is kept. |
| `Store.ValidateValue` | App.js:117-121 | Empty or non-numeric text becomes unset. A byte is kept, a negative number becomes 0 and anything above 255 becomes 255. |
| `Store.ValidateValueIdempotent` | App.js:117-124 | Validating a stored value again changes nothing. |
| `Store.ChannelHex` | App.js:125-131 | With blue set, the hex is valid and decodes to the boxes' bytes, with an unset red or green read as 0. With blue unset the hex is "#AN", which is not a colour. |
| `Store.HandleRgbChange` | App.js:116-133 | Each box stores its validated value. The hex is recomputed only when no text is empty; a non-numeric text still counts as non-empty. The recomputed hex decodes to the stored bytes, with an unset red or green read as 0, or it is "#AN" when blue is unset. Nothing else changes and the invariant is kept. |
| `Store.HandleHexSubmit` | App.js:135-150 | An invalid hex sets the error text, clears both results and leaves history alone. A valid one clears the error, shows the conversions and appends one unflagged, valid record with the given id. |
| `Store.HandleHexSubmitKeepsInv` | App.js:135-150 | A hex submission with a fresh id keeps the invariant. |
| `Store.SubmitRgb` | App.js:152-163 | As written, it always appends one unflagged record with the given id. That record is a valid conversion exactly when all three boxes are set, and then its hex decodes to the boxes' bytes. |
| `Store.SubmitRgbRecord` | App.js:153-161 | The record built from the boxes is valid if and only if every box is set. |
| `Store.NaNTextIsNotRgbText` | App.js:159 | An RGB text with an unset red or green names no colour. |
| `Store.SubmitRgbUnsetExample` | App.js:152-163 | From the initial state the submission appends the record "#AN" / "NaN, NaN, NaN" / `hsl(NaN, NaN%, NaN%)`, which breaks the invariant. |
| `Store.SubmitRgbGuarded` | App.js:152-163 | With a box unset nothing changes. Otherwise one valid record is appended, whose hex is `rgbToHex` of the boxes and decodes to their bytes. The three result fields show that record, and the error text and the boxes are untouched. |
| `Store.SubmitRgbGuardedKeepsInv` | App.js:152-163 | The guarded submission with a fresh id keeps the invariant. |
| `Store.FlipWhere` | App.js:166-168 | The map keeps length, ids and colours. It flips the flag exactly on the records with the given id. |
| `Store.FlipTwice` | App.js:166-168 | Flipping the same id twice restores the history. |
| `Store.ToggleFavorite` | App.js:165-176 | The history flags flip for the colour's id. A non-favourite is appended to favourites. A favourite's id has all its entries filtered out of favourites. |
| `Store.ToggleFavoriteMembership` | App.js:171-175 | Afterwards the colour's id is in favourites exactly when it was not a favourite before. No other id's membership changes. |
| `Store.ToggleFavoriteKeepsInv` | App.js:165-176 | Toggling a history record keeps the invariant. |
| `Store.ToggleKeepsMirror` | App.js:165-176 | Toggling keeps favourites mirroring the flagged part of history. |
| `Store.ToggleTwice` | App.js:165-176 | Toggling a record and then its updated copy restores history and the set of favourite ids. When the record was not a favourite, the favourites list is restored exactly. |
| `Store.ToggleTwiceIds` | App.js:171-175 | Two toggles of one id leave the set of favourite ids unchanged. |
| `Store.Without` | App.js:179-180 | The filter keeps exactly the records whose id differs from the key. A key matching nothing leaves the list unchanged. |
| `Store.WithoutConcat` | App.js:179-180 | Filtering distributes over concatenation, so the survivors keep their order. |
| `Store.WithoutIds` | App.js:179-180 | Filtering an id removes exactly that id from the id set. |
| `Store.WithoutUnique` | App.js:179-180 | Filtering keeps ids unique. |
| `Store.DeleteFromHistory` | App.js:178-183 | The id is gone from both lists. Every other record and favourite stays, and nothing else changes. |
| `Store.DeleteFromHistoryKeepsOrder` | App.js:178-183 | Deleting from a history made of two parts deletes from each part, in order. |
| `Store.DeleteFromHistoryKeepsInv` | App.js:178-183 | Deleting keeps the invariant. |
| `Store.DeleteFromFavorites` | App.js:185-188 | Only favourites changes. A hex-string key removes nothing. An id key removes exactly the favourites with that id. |
| `Store.FavoriteDeletePress` | App.js:214 | The favourites delete button, as wired, leaves history alone. |
| `Store.FavoriteDeletePressRemovesNothing` | App.js:214 | Pressing that button leaves the whole state unchanged, so the item stays a favourite. |
| `Store.FavoriteDeleteById` | App.js:185-188 | Deleting by the item's id removes that id from favourites, keeps every other favourite and leaves history alone. |
| `Store.FavoriteDeleteByIdLeavesStaleFlag` | App.js:185-188 | Deleting a favourite by id leaves its history record flagged with no favourite behind it, so favourites no longer mirrors history. |
| `Store.ClearWhere` | App.js:185-188 | Length, ids and colours are kept. A record's flag is afterwards set exactly when it was set and its id is not the given one. |
| `Store.FavoriteDeleteUnflag` | App.js:185-188 | The item's id leaves favourites and every other favourite stays. History keeps its records and colours, with the flag cleared exactly on the records with that id. Nothing else changes. |
| `Store.FavoriteDeleteUnflagKeepsInv` | App.js:185-188 | That delete keeps the invariant, including the favourites/history mirror. |
| `Store.UnflagKeepsMirror` | App.js:185-188 | Removing an id from favourites and clearing its history flag keeps favourites mirroring history. |

## Left out

- Persistence (`loadData`, `saveData`, AsyncStorage, App.js:18-45) is not modelled. It is I/O, and a loaded list could be anything.
- The rendering, the modal and the styles are not modelled. They are UI.
- `Math.random()` ids are left out. The id is a parameter, ids are integers compared with `==`, and the invariant lemmas require it to be fresh.
- IEEE doubles are left out. The HSL transform is exact real arithmetic, so a colour whose double rounding would land on the other side of a `.5` is not distinguished.
- Text parsing is left out: `parseInt` prefix parsing, `isNaN` on whitespace or exotic numerals, and non-integer input. An RGB box's text is given as `Field` (empty, not a number, or the number `parseInt` reads).
- `toUpperCase` beyond ASCII is left out. Only the hex digits reach it.
- `Converter.RgbToHex` requires bytes. The 32-bit wrap-around of `<<` on other values is not modelled, and every caller passes bytes or NaN. The NaN case is modelled separately in `Store.ChannelHex`.
- `Converter.HexToHsl` requires a valid hex. `parseInt` on a malformed slice is not modelled. `handleHexSubmit` discards that result on an invalid hex.
- `Store.SubmitRgb` requires the boxes to hold bytes or nothing. `handleRgbChange` is the only writer of the boxes and guarantees this.
- `Store.ToggleTwice` requires only that favourites mirrors history and that the colour is in history. When the colour was a favourite, it states the restoration of the favourite ids, not of the list. The re-added entry goes to the end of the list.

## Findings

| source | as written | input that shows it | evidently intended | confidence | as-written member | corrected member |
|---|---|---|---|---|---|---|
| App.js:214 | The favourites delete button calls `deleteFromFavorites(item.hex)`, but the filter compares `item.id !== id`. A hex string never equals a numeric id, so nothing is removed. | Any favourite `{id: 0.42, hex: "#336699", …}`; pressing its delete button keeps it in favourites | Pass `item.id`, so that the pressed favourite leaves the list | high (not executed) | `Store.FavoriteDeletePressRemovesNothing` | `Store.FavoriteDeleteById` |
| App.js:152-163 | `handleRgbSubmit` does not check the boxes. With a box unset, it appends a history record whose hex is "#AN", whose RGB text contains "NaN" and whose HSL is `hsl(NaN, NaN%, NaN%)`. | Pressing "Convert RGB" on the fresh screen (all boxes empty) | Do nothing unless all three boxes hold numbers | high (not executed) | `Store.SubmitRgbUnsetExample` | `Store.SubmitRgbGuardedKeepsInv` |
| App.js:185-188 | `deleteFromFavorites` filters favourites but never clears the history record's `isFavorite`. Even when keyed by id, the record stays flagged with no favourite behind it. `toggleFavorite` then sees a flagged record and removes it from favourites instead of adding it. | A history record toggled to favourite, then deleted from favourites by its id | Clear the history flag of that id as well, so that favourites keeps mirroring history | medium (not executed) | `Store.FavoriteDeleteByIdLeavesStaleFlag` | `Store.FavoriteDeleteUnflagKeepsInv` |
