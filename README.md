# fnt: networked tiddlers, modelled in Dafny

fnt.js gives browser code plain objects for TiddlyWeb tiddlers. A tiddler object is made
by a constructor that sets its title, empty tags and fields, and leaves every other
property undefined. Three methods act on it:

- `uri()` builds the resource URI from the host, the bag (or else the recipe) and the title.
  It reports an error when there is no host or no container.
- `toJSON()` serialises the five client-owned properties.
- `fromJSON()` copies a server answer into the object and decodes its two timestamps
  with `timestampToDate`.

The model has five modules:

- `Wrappers`: `Option` and `Result`.
- `UriComponent`: encodeURIComponent as ECMA-262 section 19.2.6.5 defines it. This means
  unreserved characters pass through, and every other character becomes the upper-case
  `%XX` octets of its UTF-8 encoding. It also has decodeURIComponent as its inverse.
- `Addressing`: `uri()`. The two error exits, which become events in the source, are
  `Err` values here; `Message` gives the text the source attaches to each. `ParseUri`
  reads a URI back into host, container and title.
- `Timestamps`: `timestampToDate`, built from `substr` (clipped to the string),
  `parseInt(_, 10)` and the `|| "0"` fallback. `parseInt` skips leading StrWhiteSpaceChar,
  takes an optional sign and reads the longest run of digits; with no digits it gives NaN.
  `Date.UTC` becomes `DateUtc`, which gives `InvalidDate` when any argument is NaN.
- `Tiddlers`:
  - `TiddlerRecord` is the value view of a tiddler object.
  - `WireTiddler` is what `toJSON` serialises.
  - `ServerDict` is the decoded server answer.
  - `Absorb` is the effect of `fromJSON` on a record.
  - The class `Tiddler` holds the object's properties as mutable fields. It has the
    constructor, `Uri`, `ToJson` and `FromJson`, the last with a `modifies this` frame.

The timestamp format is TiddlyWiki's `YYYYMMDDhhmmss` with optional milliseconds, but the code
checks none of it, and the model follows the code:

- A string of digits need not have 14 to 17 characters. Any run of at least 11 digits
  decodes, and the seconds and milliseconds that are missing read as 0 through `|| "0"`.
- Each field is read by parseInt, which skips leading white space, takes a sign and stops
  at the first non-digit. So a field such as `"3x"` or `" 6"` still reads as a number.
- The date is invalid (NaN time value) exactly when one of the five leading fields has no
  digits after its white space and sign, or the second or millisecond substring is
  non-empty and has none (`|| "0"` replaces only an empty substring). The first always
  happens below 11 characters. Malformed input is not rejected with an error.
- The constructor creates the misspelt property `modfied`, and `fromJSON` writes
  `modified`. Both are kept as separate fields: `modfied`, which nothing ever updates,
  and `modified`, unset until `fromJSON` runs.
- `fromJSON` reads `tiddlerDict.modified.substr` through `timestampToDate`. An answer
  without `modified` (or without `created`) therefore throws a TypeError part-way.
  The assignments before the failing one have taken effect, and `FromJson` reports
  this by returning `completed == false`.

The property `type` is called `contentType`, because `type` is a Dafny keyword.

## Model

| member | source | states |
|---|---|---|
| Tiddlers.NewRecord | fnt.js:34-55 | the record the constructor builds; it has no contract of its own, and NewRecordFields and the constructor's ensures state its contents |
| Tiddlers.Tiddler.constructor | fnt.js:34-55 | a new tiddler has the given title, empty tags, empty fields, and every other property (`modfied` included) unset |
| Tiddlers.NewRecordFields | fnt.js:34-55 | the new record's title, tags and fields are as given; its URI is the host-required error, because no host is set; and its projection is `{title, undefined text, [], undefined type, {}}` |
| Addressing.TiddlerUri | fnt.js:64-91 | error "host required" exactly when the host is unset or empty; the no-container error exactly when there is a host but neither bag nor recipe is set and non-empty; a URI exactly when there is a host and a container; `Message(e)` is the `msg` of the error event the source triggers before returning undefined (fnt.js:70, 82) |
| Addressing.UriOfBag | fnt.js:85-90 | with a host and a non-empty bag, the URI is `host + "/bags/" + enc(bag) + "/tiddlers/" + enc(title)` |
| Addressing.UriOfRecipe | fnt.js:75-90 | with a host, no (or empty) bag and a non-empty recipe, the URI is `host + "/recipes/" + enc(recipe) + "/tiddlers/" + enc(title)` |
| Addressing.BagTakesPrecedence | fnt.js:75-87 | with a non-empty bag, the recipe has no influence on the result of uri() |
| Addressing.ParseTiddlerUri | fnt.js:89-90 | every URI uri() builds parses back into the host, the container it chose (bag or recipe) and the title |
| Addressing.UriDeterminesAddress | fnt.js:89-90 | two tiddlers with the same URI have the same host, the same container and the same title |
| Addressing.BagUriExample | fnt.js:85-90 | title "a b" in bag "b" on host "http://x" gives "http://x/bags/b/tiddlers/a%20b" |
| Addressing.RecipeUriExample | fnt.js:75-77 | title "a b" in recipe "r" on host "http://x" gives "http://x/recipes/r/tiddlers/a%20b" |
| UriComponent.Utf8 | fnt.js:77 | the UTF-8 form of a character is one to four octets; the first octet announces the length, and the rest are continuation octets |
| UriComponent.Utf8RoundTrip | fnt.js:77 | decoding the UTF-8 octets of a character gives the character back |
| UriComponent.Utf8DecodeCanonical | fnt.js:77 | the converse: octets that decode to a character are exactly its UTF-8 form, so the decoder refuses overlong forms; with Utf8RoundTrip, `Utf8Decode(bs) == Some(c)` if and only if `Utf8(c) == bs` |
| UriComponent.PercentEncode | fnt.js:86 | each octet becomes exactly three characters, and the output uses only unreserved characters and `%` |
| UriComponent.PercentEncodeAt | fnt.js:86 | octet i is written at position 3i as `%` followed by the upper-case hexadecimal digits of its high and low nibble |
| UriComponent.EncodeChar | fnt.js:86 | a character stays one character exactly when it is unreserved, and the output uses only unreserved characters and `%` |
| UriComponent.Encode | fnt.js:89-90 | encodeURIComponent's output uses only unreserved characters and `%`, and is never shorter than its input |
| UriComponent.DecodeEncode | fnt.js:89-90 | decodeURIComponent inverts encodeURIComponent on every string |
| UriComponent.EncodeInjective | fnt.js:89-90 | distinct segments encode to distinct strings |
| UriComponent.EncodeHasNoSlash | fnt.js:77 | an encoded segment never contains "/", so it cannot break the path into more segments |
| UriComponent.EncodeIdentity | fnt.js:86 | a string encodes to itself exactly when all of its characters are unreserved |
| UriComponent.EncodeSpace | fnt.js:89-90 | "a b" encodes as "a%20b" |
| Timestamps.ParseInt | fnt.js:133-139 | the model of parseInt(s, 10); it has no contract of its own, and TrimStartSpec, DigitPrefixSpec, ParseDigits, ParseStopsAtNonDigit and FieldOf state its behaviour |
| Timestamps.DateUtc | fnt.js:132 | the model of Date.UTC on the seven parsed arguments; it has no contract of its own, and AssembleDate and the Unreadable lemmas state when it is valid and what it holds |
| Timestamps.TimestampToDate | fnt.js:131-140 | the model of timestampToDate; it has no contract of its own, and DigitsTimestamp, FullTimestamp, MinuteTimestamp, the Unreadable lemmas and the examples state its behaviour |
| Timestamps.Substr | fnt.js:133-139 | `substr` gives at most `len` characters: the slice when it lies inside the string, and nothing exactly when `start` is at or past the end; digits stay digits |
| Timestamps.DigitPrefixSpec | fnt.js:133-139 | the run of digits parseInt reads is the longest prefix made of digits |
| Timestamps.TrimStartSpec | fnt.js:133-139 | parseInt's leading trim drops only white space and stops at the first other character |
| Timestamps.ParseDigits | fnt.js:133-139 | parseInt reads a non-empty string of digits as its decimal value |
| Timestamps.ParseStopsAtNonDigit | fnt.js:133-139 | parseInt stops at the first character that is not a digit |
| Timestamps.DigitField | fnt.js:133-139 | a field that starts inside a string of digits reads as the decimal value of its substring, with or without the `|| "0"` fallback |
| Timestamps.MissingField | fnt.js:137-139 | a field past the end of the string reads as NaN, and as 0 through the `|| "0"` fallback |
| Timestamps.DigitsTimestamp | fnt.js:131-140 | on a string of digits the date is valid exactly when the string has at least 11 characters; then each component is the decimal value of its fixed-position field, the month minus one, and a missing second or millisecond is 0 |
| Timestamps.FullTimestamp | fnt.js:131-140 | seventeen digits give the components at [0:4], [4:6] minus 1, [6:8], [8:10], [10:12], [12:14] and [14:17] |
| Timestamps.MinuteTimestamp | fnt.js:138-139 | twelve digits give the components at [0:4], [4:6] minus 1, [6:8], [8:10] and [10:12], with second and millisecond 0 |
| Timestamps.UnreadableYear | fnt.js:133 | a timestamp whose first character is not a digit, a sign or white space gives an invalid date |
| Timestamps.UnreadableSecond | fnt.js:138 | a non-empty second substring that parseInt cannot read gives an invalid date, because `|| "0"` replaces only an empty one |
| Timestamps.UnreadableMillisecond | fnt.js:139 | a non-empty millisecond substring that parseInt cannot read gives an invalid date |
| Timestamps.UnreadableSecondExample | fnt.js:131-140 | in "202106151430ab" the five leading fields read as 2021, 6, 15, 14 and 30, yet the date is invalid because of the seconds "ab" |
| Timestamps.FullTimestampExample | fnt.js:131-140 | "20210615143022500" decodes to 2021, month 5 (June), day 15, 14:30:22.500 |
| Timestamps.MinuteTimestampExample | fnt.js:131-140 | "202106151430" decodes to 2021, month 5 (June), day 15, 14:30:00.000 |
| Timestamps.FieldOf | fnt.js:133-137 | a field whose substring is a run of digits followed by a non-digit or nothing reads as the value of those digits |
| Timestamps.TrailingTextExample | fnt.js:131-140 | "20210615143x" decodes to 2021, month 5, day 15, 14:03:00.000, because parseInt reads "3x" as 3 |
| Tiddlers.Tiddler.Uri | fnt.js:64-91 | the object's uri() is the uri() of its record |
| Tiddlers.Tiddler.ToJson | fnt.js:100-107 | the object's toJSON dictionary is the projection of its record |
| Tiddlers.Project | fnt.js:100-107 | the dictionary toJSON builds; it has no contract of its own, and ProjectExactly and EchoRoundTrip state what it keeps |
| Tiddlers.ProjectExactly | fnt.js:100-107 | two tiddlers project alike if and only if they agree on title, text, tags, type and fields; server-owned properties never reach the projection |
| Tiddlers.Tiddler.FromJson | fnt.js:116-127 | the new record is `Absorb` of the old one; `completed` holds exactly when no TypeError was thrown; title, host, bag, recipe and the URI are unchanged; an answer that echoes the object's toJSON leaves toJSON unchanged |
| Tiddlers.Tiddler.CopyContent | fnt.js:117-122 | text, render, tags, type, fields and modifier take the answer's values, and nothing else changes |
| Tiddlers.Tiddler.SetModified | fnt.js:123-124 | `modified` becomes the decoded timestamp and `creator` the answer's, and nothing else changes |
| Tiddlers.Tiddler.SetCreated | fnt.js:125-126 | `created` becomes the decoded timestamp and `revision` the answer's, and nothing else changes |
| Tiddlers.Absorb | fnt.js:116-127 | the effect of fromJSON on a record; it has no contract of its own, and AbsorbKeepsAddress, AbsorbComplete, AbsorbCopiesContent, AbsorbForgetsOldContent and AbsorbIdempotent state it |
| Tiddlers.AbsorbKeepsAddress | fnt.js:116-127 | fromJSON never changes title, host, bag or recipe, so the tiddler keeps its URI |
| Tiddlers.AbsorbComplete | fnt.js:116-127 | fromJSON completes exactly when the answer has both timestamps; then every server-owned property holds the answer's value, with the timestamps decoded |
| Tiddlers.AbsorbCopiesContent | fnt.js:117-122 | even a fromJSON that throws has copied text, render, tags, type, fields and modifier |
| Tiddlers.AbsorbForgetsOldContent | fnt.js:116-127 | after a fromJSON that completes, the result depends only on the answer and on the properties fromJSON does not write |
| Tiddlers.EchoRoundTrip | fnt.js:100-127 | when the server answers with the content toJSON sent, reading the answer back keeps the projection unchanged |
| Tiddlers.AbsorbIdempotent | fnt.js:116-127 | reading the same answer twice has the same effect as reading it once |

## Left out

- `getTiddler`, `putTiddler` and `deleteTiddler` (fnt.js:147-225) are asynchronous `$.ajax` network calls. They are I/O and are not part of this model, and neither is the `method` label their error events carry.
- The jQuery event bus (`$(document).trigger`) is left out. uri()'s two error events are returned as `Err` values instead, and `Message` gives their text.
- `JSON.stringify` (fnt.js:108) is a library serialiser. `ToJson` returns the dictionary before serialisation.
- `Date.UTC` and `new Date` are stopped at their seven arguments. The model has no normalisation of out-of-range components (a second of 60, say), no mapping of years 0-99 to 1900-1999, and no time-value range check.
- JavaScript strings are UTF-16 code units, and the model's strings are Unicode scalar values. So `substr` positions differ from the source on characters outside the Basic Multilingual Plane. The URIError that encodeURIComponent throws on a lone surrogate cannot arise, because a Dafny `char` is never a surrogate.
- Property values other than strings (and `int` for `revision`) are left out, because for such values what JavaScript's coercions and `substr` do is outside the model: numbers, `null`, or an object for `title`, `host`, `bag`, `recipe` or any entry of the server answer. An undefined title, which encodeURIComponent would write as "undefined", is one of these.
- Tiddlers.Tiddler.FromJson: a thrown TypeError is modelled as an early return with `completed == false`. The model does not propagate it as an exception to the caller.
- `console.log` (fnt.js:155) is output only.
- In the source, `tags` and `fields` are shared references. fromJSON stores the answer's own array and object (fnt.js:119, fnt.js:121), and toJSON's dictionary holds the tiddler's own (fnt.js:104, fnt.js:106). The model copies values, so it does not capture aliasing, and a `map` does not keep the key order of `fields`.
