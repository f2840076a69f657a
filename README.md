# ChromaVault colour core in Dafny

ChromaVault is a single-page colour picker and palette keeper written in
JavaScript (`script.js`). This project models its two pieces of
non-presentational logic and proves properties about them.

- **The hex codec of the `Color` object** (`color.dfy`, module `Color`):
  - `rgbToHex` writes three channels as `#RRGGBB`. Each channel goes
    through `toString(16)` and `padStart(2, '0')`, and the joined string is
    upper-cased.
  - `hexToRgb` drops one leading `#`, doubles each digit of a three-digit
    form, and unpacks the `parseInt(…, 16)` value with shifts and masks.
  - `isValidHex` is the regular expression `^#?([0-9A-Fa-f]{3}|[0-9A-Fa-f]{6})$`.
  - `normalize` trims, upper-cases, adds a missing `#`, expands `#XYZ`, and
    keeps the result only if it is valid.
  - `getName` looks the upper-cased string up in a fixed table of 20 colour
    names, with `Custom` as the fallback.
- **The JavaScript string built-ins these rely on** (`jsstring.dfy`, module
  `JsString`): `toUpperCase`, `toLowerCase`, `trim` (with the ECMAScript
  white-space set) and `includes`.
- **The saved-colour library** (`library.dfy`, module `ColorLibrary`): the
  `Library` class and its field `colors`, the in-memory list of saved
  records, newest first.
  - `save` prepends a record unless its hex is already saved.
  - `delete` filters out an id.
  - The confirmed "delete all" action empties the list.
  - `render` filters the list by the search box text.
  - `import` appends each record of a parsed file whose hex is not yet
    present.

The `Color` helpers are pure and are modelled as functions, with lemmas
about them. The `Library` operations change `this.colors` in place. They
are methods of a Dafny class that reassign its `colors` field.

- `Save` and `ClearAll` state their new list outright.
- `Delete`, `Render` and `Import` are specified by the pure functions
  `Filter`, `Search` and `Fresh`. The properties of those functions are
  proved as lemmas.
- The `import` loop keeps its `forEach` shape as a `while` loop with
  invariants.

The record id and time stamp that `save` draws from `Date.now()` and
`Math.random()` are parameters of `Save`. The array that `import` gets
from `FileReader` and `JSON.parse` is the parameter of `Import`.

## Model

| member | source | states |
|---|---|---|
| JsString.ToUpper | script.js:98 | `toUpperCase` keeps the length and maps each ASCII lower-case letter to its capital, leaving every other character alone |
| JsString.ToLower | script.js:544-545 | `toLowerCase` keeps the length and maps each ASCII capital to its lower-case letter, leaving every other character alone |
| JsString.UpperForgetsCase | script.js:98 | with ASCII case mapping, `toUpperCase` is idempotent, ignores a prior `toLowerCase`, and leaves no lower-case letter |
| JsString.LowerForgetsCase | script.js:544-545 | with ASCII case mapping, `toLowerCase` is idempotent and ignores a prior `toUpperCase` |
| JsString.TrimStart | script.js:149 | the result is the suffix of the input left after its leading white space, and does not start with white space |
| JsString.TrimEnd | script.js:149 | the result is the prefix of the input left before its trailing white space, and does not end with white space |
| JsString.TrimIdempotent | script.js:149 | trimming twice equals trimming once |
| JsString.Trim | script.js:149 | the result is a contiguous slice of the input with only white space before and after it, and it neither starts nor ends with white space; a string without white space is unchanged |
| JsString.Includes | script.js:545 | a string includes only strings no longer than itself |
| Color.Radix16 | script.js:98 | `toString(16)` of a non-negative integer has at least one digit, one exactly below 16 and at most two exactly below 256 |
| Color.ToString16 | script.js:98 | `toString(16)` of any integer is non-empty, a negative one starts with `-`, and a byte takes at most two characters |
| Color.PadStart2 | script.js:98 | `padStart(2, '0')` pads to length two and leaves a longer string unchanged |
| Color.Radix16RoundTrip | script.js:98 | `toString(16)` of a non-negative integer is all hex digits, and parsing them back gives the integer |
| Color.ChannelField | script.js:98 | a channel field has at least two characters, two characters for a non-negative channel only when it is a byte, and a leading `-` for a negative channel |
| Color.ChannelFieldOfByte | script.js:98 | a channel in 0..255 is written as exactly two digits, high nibble first |
| Color.RgbToHex | script.js:97-99 | the output starts with `#` and has at least seven characters, for any integer channels |
| Color.RgbToHexDigits | script.js:97-99 | for byte channels, the output is `#` followed by the six upper-case digits of r, g and b |
| Color.RgbToHexOfBytes | script.js:97-99 | for byte channels, the output is `#` plus exactly six upper-case hex digits |
| Color.RgbToHexValidIff | script.js:97-99 | the output passes `isValidHex` exactly when all three channels are in 0..255 |
| Color.HexRun | script.js:144 | `[0-9A-Fa-f]{n}` matches only strings of length n |
| Color.IsValidHex | script.js:143-145 | a string passing `isValidHex` has length 3, 4, 6 or 7 |
| Color.HexRunIsAllHex | script.js:144 | the regex's repeated digit class matches exactly n hex digits |
| Color.ValidHexIff | script.js:143-145 | `isValidHex` holds exactly when the string, minus one optional `#`, is 3 or 6 hex digits |
| Color.ValidHexLength | script.js:143-145 | a valid string has length 3, 4, 6 or 7; lengths 4 and 7 start with `#`; lengths 3 and 6 are all digits |
| Color.ValidHexNoWhiteSpace | script.js:143-145 | a valid string contains no white space |
| Color.StripHash | script.js:102 | the result is the input, or the input is `#` followed by the result |
| Color.SixDigits | script.js:102-103 | the stripped, expanded digits `hexToRgb` parses are six hex digits |
| Color.Expand3 | script.js:103 | doubling the digits of a three-digit string gives six characters, character i taken from position i/2 |
| Color.ParseHex | script.js:104 | `parseInt(s, 16)` of k hex digits is below 16^k |
| Color.ParseSixDigits | script.js:104 | `parseInt` of six hex digits is the three digit pairs weighted by 0x10000, 0x100 and 1 |
| Color.HexToRgb | script.js:101-106 | on a valid string, all three channels are in 0..255 |
| Color.HexToRgbChannels | script.js:101-106 | each channel is the value of its digit pair, high digit first |
| Color.RgbHexRoundTrip | script.js:97-106 | for byte channels, `hexToRgb(rgbToHex(r, g, b))` gives back (r, g, b) |
| Color.RgbToHexOfHexToRgb | script.js:97-106 | for a valid string, `rgbToHex(hexToRgb(s))` is `#` plus its six digits upper-cased |
| Color.HexToRgbHashOptional | script.js:102 | `hexToRgb` gives the same colour with or without a leading `#` |
| Color.HexToRgbShorthand | script.js:103 | a three-digit input decodes like its doubled six-digit form, each channel being 17 times its digit |
| Color.Prefixed | script.js:150 | the result starts with `#` and is `#` followed by the input with one leading `#` removed |
| Color.ExpandShort | script.js:151 | a four-character string becomes `#` plus its last three characters doubled; any other length is unchanged |
| Color.UpperKeepsValidity | script.js:148-152 | with ASCII case mapping, upper-casing neither makes nor breaks validity |
| Color.PrefixExpandKeepsValidity | script.js:150-152 | adding a missing `#` and expanding `#XYZ` neither makes nor breaks validity |
| Color.Canonicalize | script.js:149-152 | a result of the post-trim steps of `normalize` is a valid seven-character string starting with `#` |
| Color.Normalize | script.js:147-153 | the empty string gives null, and every non-null result is a valid seven-character string starting with `#` |
| Color.CanonicalizeSomeIff | script.js:149-152 | with ASCII case mapping, the post-trim steps of `normalize` succeed exactly on valid strings |
| Color.NormalizeSomeIff | script.js:147-153 | with ASCII case mapping, `normalize` returns a value exactly when the trimmed input is valid; in particular it returns null for white space only |
| Color.NormalizeIgnoresSurroundingSpace | script.js:149 | `normalize(s.trim())` equals `normalize(s)` |
| Color.NormalizeCanonical | script.js:147-153 | every non-null result is `#` plus six upper-case hex digits |
| Color.NormalizeValid | script.js:147-153 | on a valid input, the result is `#` plus the six digits `hexToRgb` reads, upper-cased |
| Color.NormalizeAgreesWithHexToRgb | script.js:147-153 | on a valid input, `normalize` equals `rgbToHex(hexToRgb(s))`, and decoding the normal form gives the same colour |
| Color.NormalizeFixesCanonical | script.js:147-153 | `normalize` returns a canonical `#RRGGBB` string unchanged |
| Color.NormalizeIdempotent | script.js:147-153 | when `normalize(x)` is non-null, normalising it again gives the same value |
| Color.NormalizeRgbToHex | script.js:147-153 | for byte channels, `normalize(rgbToHex(r, g, b))` is `rgbToHex(r, g, b)` |
| Color.NormalizeShorthand | script.js:151 | a four-character `#XYZ` becomes `#XXYYZZ`, upper-cased |
| Color.NamesKeysCanonical | script.js:133-139 | every key of the name table is `#` plus six upper-case hex digits |
| Color.NamesAreNames | script.js:133-139 | no name in the table is `Custom`, and none is empty |
| Color.GetName | script.js:132-141 | `getName` never returns an empty string, and returns `Custom` exactly when the upper-cased input is not a key of the table |
| Color.GetNameIgnoresCase | script.js:132-141 | `getName` gives the same answer for a string, its upper-cased and its lower-cased form |
| Color.GetNameOnlyForCanonical | script.js:132-141 | only strings that normalise to their own upper-cased form have a table name |
| Color.ExampleRed | script.js:97-106 | (255, 0, 0) is written `#FF0000` and read back |
| Color.ExampleShorthandRgb | script.js:101-106 | `#abc` decodes to (0xAA, 0xBB, 0xCC) |
| Color.ExamplesValidation | script.js:143-145 | `#FFF` and `FFFFFF` are valid; `#12345`, the empty string and `#GGGGGG` are not |
| Color.ExampleNormalizeShort | script.js:147-153 | `abc` normalises to `#AABBCC` |
| Color.ExampleTrim | script.js:149 | trimming `" #fff "` gives `#fff` |
| Color.ExampleNormalizeHashShort | script.js:147-153 | `#fff` normalises to `#FFFFFF` |
| Color.ExampleNormalizeTrim | script.js:147-153 | `" #fff "` normalises to `#FFFFFF` |
| Color.ExampleNormalizeFive | script.js:147-153 | five digits do not normalise |
| Color.ExamplesGetName | script.js:132-141 | `#FF0000` and `#ff0000` are named `Red`; `#123456` is `Custom` |
| ColorLibrary.Filter | script.js:534-545 | `filter` keeps exactly the elements the test accepts and never lengthens the list |
| ColorLibrary.FilterCounts | script.js:534-545 | each accepted element is kept as often as it occurs, and each rejected one is dropped |
| ColorLibrary.FilterConcat | script.js:534-545 | `filter` distributes over concatenation, so survivors keep their relative order |
| ColorLibrary.FilterAll | script.js:541-544 | a test that accepts every element returns the list unchanged |
| ColorLibrary.FilterKeepsUnique | script.js:534-538 | filtering a list without repeated hex strings leaves none repeated |
| ColorLibrary.SearchEmpty | script.js:540-544 | an empty search shows every saved colour |
| ColorLibrary.Search | script.js:543-545 | with ASCII case mapping, the search shows exactly the colours whose lower-cased hex or name contains the lower-cased query |
| ColorLibrary.SearchIgnoresCase | script.js:543-545 | with ASCII case mapping, the search gives the same list for a query, its upper-cased and its lower-cased form |
| ColorLibrary.Fresh | script.js:636-643 | import never appends more records than the file holds |
| ColorLibrary.FreshShape | script.js:636-643 | import appends only records from the file whose hex is not held, no two with the same hex, and together they cover every new hex of the file |
| ColorLibrary.FreshKeepsFirst | script.js:638-641 | the first record in the file carrying a new hex is appended |
| ColorLibrary.FreshConcat | script.js:638-641 | importing a + b appends what a appends, then what b appends once a's hexes are held |
| ColorLibrary.FreshOfHeld | script.js:638-641 | a file whose hexes are all held appends nothing |
| ColorLibrary.ImportKeepsUnique | script.js:636-643 | merging a file into a list without repeated hex strings leaves none repeated |
| ColorLibrary.ImportTwice | script.js:636-643 | importing the same file a second time appends nothing |
| ColorLibrary.SavedName | script.js:516 | the saved name is the trimmed input when that is non-empty, otherwise `getName` of the hex; it is never empty |
| ColorLibrary.PrependKeepsUnique | script.js:518-527 | putting a record with a new hex in front of a list without repeated hexes leaves none repeated |
| ColorLibrary.DeleteUndoesSave | script.js:514-538 | deleting the id of a just-saved record with a fresh id restores the list |
| ColorLibrary.Library.constructor | script.js:463-464 | a new library is empty and has no repeated hex |
| ColorLibrary.Library.Save | script.js:514-532 | an already saved hex leaves the list unchanged and reports no save; otherwise exactly one record, with the given id and time, the picker's channels and the chosen name, is put in front; no hex becomes repeated |
| ColorLibrary.Library.Delete | script.js:534-538 | the new list is the old one without the records carrying that id, in the same order; no hex becomes repeated |
| ColorLibrary.Library.ClearAll | script.js:504-507 | a confirmed clear empties the list; an unconfirmed one changes nothing |
| ColorLibrary.Library.Render | script.js:540-548 | the drawn list is the search result for the filter (every colour for an empty filter), and the count is the size of the whole library |
| ColorLibrary.Library.Import | script.js:628-646 | the old list is kept as a prefix and the records `Fresh` selects are appended in file order; `added` equals the growth; no hex becomes repeated |

## Left out

- The floating-point converters (`hsvToRgb`, `rgbToHsv`, `rgbToHsl`, `hslToRgb`, `rgbToLab`, `labToLch`) and the `formats` strings. They use `Math.round`, `Math.pow` and `Math.atan2` on doubles, which Dafny's exact reals do not model.
- The `Picker` class, toasts, modals, navigation, settings toggles, keyboard shortcuts, clipboard writes and export through `Blob`. They are DOM and timer plumbing.
- The DOM work of `render`: drawing cards and showing the empty state. `Render` returns the list it would draw and the count it would show.
- `import`'s `FileReader`, `JSON.parse`, its non-array and parse-error branches, and clearing the file input. `Import` starts from the parsed array.
- `Import`: only imports arrays of well-formed records. Entries that are `null`, not objects, or lack a `hex` field would throw or compare `undefined` in the source. Here every entry is a `SavedColor`.
- Id and time-stamp generation with `Date.now()` and `Math.random()`. They are parameters of `Save`.
- `HexToRgb` is defined only on strings that pass `isValidHex`, which is how the application calls it. On other input, `parseInt` returns `NaN` or reads a partial prefix, and the masks turn that into 0 or a partial value. That behaviour is not modelled.
- `RgbToHex` takes integer channels. JavaScript's `toString(16)` of a fractional number (such as `c.8`) is not modelled.
- `JsString.ToUpper`, `JsString.ToLower`: map only ASCII letters. JavaScript's `toUpperCase` also maps non-ASCII letters, some of them to several characters. In particular U+FB00 (`ﬀ`) upper-cases to `FF`.
- `JsString.UpperForgetsCase`, `JsString.LowerForgetsCase`, `ColorLibrary.SearchIgnoresCase`, `ColorLibrary.Search`: hold for the ASCII case mapping, not for JavaScript's full one.
  - `'ẞ'` (U+1E9E) stays `'ẞ'` under `toUpperCase`, but lower-casing and then upper-casing it gives `SS`.
  - `"ß".toUpperCase().toLowerCase()` is `ss`, while `"ß".toLowerCase()` is `ß`.
  - For a colour named `Moss`, the source's search shows it for the query `SS` (which is `"ß".toUpperCase()`) but not for the query `ß`.
  - A colour named `écru` is found by the query `É` in the source but not in the model.
- `Color.Normalize`, `Color.UpperKeepsValidity`, `Color.CanonicalizeSomeIff`, `Color.NormalizeSomeIff`: hold for the ASCII case mapping, not for JavaScript's full one. In the source, `normalize("ﬀf")` upper-cases to `FFF` and returns `#FFFFFF`, while the model returns null. Likewise the source's `normalize("#ﬀ0000")` is `#FF0000`. For input without U+FB00 the two agree, because no other character upper-cases to hex digits only.
- `Color.GetName`: for the same reason, the source names `#ﬀ0000` `Red` and the model answers `Custom`. The search filter uses `toLowerCase`, which the model also maps only for ASCII letters.
- `Color.GetName`: the table is a plain object, so in JavaScript a key inherited from `Object.prototype` could also be found. Every such key contains a lower-case letter, so an upper-cased string never hits one, and the model uses a map of the 20 own entries.
- Hex strings are compared exactly, as the source's `===` does. `#ff0000` and `#FF0000` count as different colours in `save` and `import`.
