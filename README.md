# Chromatic Quantum Zones Clock — a Dafny model of its core

The repository holds two near-identical Tkinter clocks. Each names the time of day by a zone (Morning, Afternoon, Evening, Night), colours a label from a hue produced by a small quantum circuit, and shows `HH:MM:SS`.

- **`color.clocks.py`** keeps a colour per zone in `zone_colors`. Every clock tick it colours the label with the current zone's entry in `zone_colors`, then overwrites all zones with the circuit's colour, so the label shows the colour from before this tick's update.
- **`color.clock.interpolated.py`** only sets a *target* colour from the circuit's hue. A faster colour tick moves the displayed colour toward the target one channel step at a time. Each step decodes both colours from `#rrggbb`, moves every channel by at most 0.01, encodes the result again and writes it into every zone.

This project models the computational core of both programs and proves what it promises:

- **Zones** (`zones.dfy`): the zone table and the first-match resolver `get_zone`.
- **Format** (`format.dfy`): Python's `{:02x}` and `{:02d}` formatting, and the clock string.
- **ColorCodec** (`color_codec.dfy`): the codec `rgb_to_hex` / `rgb_from_hex`, and the output step of `hsl_to_rgb`.
- **Tween** (`tween.dfy`): the channel step `update_channel`.
- **ClockFace** (`clock_face.dfy`): what one tick displays.
- **ZoneColors** (`zone_colors.dfy`): the `zone_colors` dictionary and its overwrite loop.
- **ColorClocks** (`color_clocks.dfy`): the first program's state and ticks.
- **InterpolatedClock** (`interpolated_clock.dfy`): the second program's state and ticks.
- **Wrappers** (`wrappers.dfy`): `Option` and `Result`.

How the model treats the program:

- **Channels are exact `real`s.** Python's `int(x)` is truncation toward zero.
- **Failing calls are results.** `int(field, 16)` failing is `None`; the failing `zone_colors[zone]` lookup is `Err(KeyError(...))`.
- **Object state is class fields.** The two programs' objects are classes whose fields are the dictionary and the colour strings. One tick is one method call.
- **Outside input is a parameter.** The wall-clock time is passed in, and so are the channels `colorsys.hls_to_rgb` returned for the circuit's hue.

Two behaviours of the code are worth noting:

- **The zone table is not total.** Hours 0 to 5 match no entry, and `get_zone` falls off its loop and returns `None` (`Zones.NoZoneBeforeSix`). In `color.clocks.py` the label lookup `zone_colors[None]` then raises `KeyError`. That tick ends before it reschedules itself (`ColorClocks.ForegroundDefinedFromSix`, `ColorClocks.ZonesClock.UpdateClock`). No later tick is scheduled, so from midnight on the first program's display stays frozen. Started between 00:00 and 05:59, the `KeyError` escapes the constructor through its first `update_clock()` call (`color.clocks.py` line 33), and `mainloop` is never reached.
- **A channel moves by whole bytes, so a full swing takes more than a hundred colour ticks.** A hundred exact steps of 0.01 would take a channel from 0 to 1 (`Tween.HundredStepsBlackToWhite`). But `update_color` writes `current_color` back through hex every colour tick (every 50 ms). Away from the target each byte therefore moves by exactly +2 going up or −3 going down, never by 2.55, and its last step lands on the target (`Tween.QuantizedStep`, `Tween.ByteStepsClosedForm`, `InterpolatedClock.NextColorBytes`). Toward a fixed target, a channel rising from 00 reaches ff at tick 128 (6.4 s), not 100, and one falling from ff reaches 00 at tick 85 (`Tween.ChannelTicksToTarget`). In the program the target does not stay fixed that long: `update_clock` replaces it every second, and the label takes `current_color` only then. Every target, and the start colour, is a hue at full saturation and lightness 0.5, so it is never black or white. The black-to-white lemmas (`InterpolatedClock.DisplayedColorBlackToWhite`, `InterpolatedClock.DisplayedColorAfterHundredTicks`) are a worked example of the colour tick's arithmetic, not a state the program reaches.

## Model

| member | source | states |
|---|---|---|
| Zones.GetZone | color.clocks.py:57-60 | `get_zone`: the first-match scan over the zone table; what it answers is proved in `Zones.GetZoneContaining`, `Zones.GetZoneByHour` and `Zones.NoZoneBeforeSix` |
| Zones.FirstMatch | color.clocks.py:57-60 | the scan returns `None` exactly when no entry matches the hour; otherwise it returns the zone of the first matching entry |
| Zones.GetZoneContaining | color.clock.interpolated.py:60-63 | `get_zone(h)` is `z` exactly when the table has an entry for `z` whose interval contains `h` (`start <= h` and no end or `h < end`) |
| Zones.GetZoneByHour | color.clocks.py:16-21 | the answer for every hour: `None` before 6, Morning for 6–11, Afternoon for 12–17, Evening for 18–20, Night from 21 on |
| Zones.NoZoneBeforeSix | color.clocks.py:57-60 | the loop finishes without returning, giving `None`, exactly for hours below 6 |
| Zones.ZoneTableDisjoint | color.clocks.py:16-21 | for every hour at most one table entry matches |
| Zones.FirstMatchOrderFree | color.clocks.py:57-60 | a scan over the same entries in any order gives the same answer, so first match wins does not depend on dictionary order |
| Zones.ZoneNamesAreTableKeys | color.clocks.py:16-21 | the four zone names are exactly the keys of the table |
| Zones.ZoneTableKeysDistinct | color.clocks.py:16-21 | no two table entries share a name |
| Format.Format02x | color.clocks.py:106 | `{:02x}`: the hexadecimal digits of `n`, padded with `0` to two; `Format.Format02xValue` proves they read back as `n`, and `Format.Format02xByte` that a byte gives exactly two lowercase digits |
| Format.HexDigitsValue | color.clocks.py:106 | the hexadecimal digits written for any `n` read back as `n` |
| Format.Format02xValue | color.clocks.py:106 | for `n >= 0`, `{:02x}` has at least two hex digits and reads back as `n` |
| Format.Format02xByte | color.clock.interpolated.py:116 | for a byte, `{:02x}` is exactly the two lowercase digits of its high and low nibble |
| Format.HexByteValue | color.clock.interpolated.py:112 | two hex characters have a value below 256; two lowercase ones are exactly the spelling `{:02x}` writes for that value |
| Format.HexByteRoundTrip | color.clock.interpolated.py:112-116 | the two digits written for a byte read back as the byte |
| Format.Format02d | color.clocks.py:46 | `{:02d}`: the decimal digits of `n`, padded with `0` to two; `Format.Format02dField` proves a value below 100 gives two digits that read back as `n` |
| Format.TimeString | color.clocks.py:46 | the clock text `HH:MM:SS`; its shape and the values of its fields are proved in `Format.TimeStringFields` |
| Format.DecDigitsValue | color.clocks.py:46 | the decimal digits written for any `n` read back as `n` |
| Format.Format02dField | color.clocks.py:46 | for `n < 100`, `{:02d}` is exactly two decimal digits that read back as `n` |
| Format.TimeStringFields | color.clocks.py:46 | for a wall-clock time, the clock text is 8 characters with colons at positions 2 and 5, and each two-digit field reads back as hours, minutes and seconds |
| ColorCodec.Trunc | color.clock.interpolated.py:116 | Python's `int(x)` on a real; `ColorCodec.TruncTowardZero` proves it truncates toward zero |
| ColorCodec.TruncTowardZero | color.clock.interpolated.py:116 | `int(x)` is the integer next to `x` on the side of zero, and is odd-symmetric |
| ColorCodec.LStripHash | color.clock.interpolated.py:111 | `lstrip('#')`, removing every leading `#`; `ColorCodec.LStripHashSuffix` and `ColorCodec.StripHexColor` prove what it removes |
| ColorCodec.LStripHashSuffix | color.clock.interpolated.py:111 | `lstrip('#')` leaves a suffix that does not start with `#`; everything it removed was `#` |
| ColorCodec.Slice | color.clock.interpolated.py:112 | Python's `hex_color[i:i+2]`, clamped to the string like Python's slicing; used by `ColorCodec.RgbFromHexResult` |
| ColorCodec.ParseHexField | color.clock.interpolated.py:112 | `int(field, 16)`: the value of a non-empty field of hex digits, and `None` (Python's `ValueError`) otherwise; `Format.HexByteValue` bounds two-digit fields |
| ColorCodec.FieldChannel | color.clock.interpolated.py:112 | one decoded channel, `int(field, 16) / 255`; `ColorCodec.FieldOnGrid` proves it is `k / 255` for a byte `k` |
| ColorCodec.RgbFromHex | color.clock.interpolated.py:109-112 | `rgb_from_hex`; when it succeeds and what it returns is proved in `ColorCodec.RgbFromHexResult`, `ColorCodec.RgbFromHexBytes` and `ColorCodec.HexRoundTrip` |
| ColorCodec.RgbFromHexResult | color.clock.interpolated.py:109-112 | `rgb_from_hex` succeeds exactly when the fields at offsets 0, 2 and 4 of the stripped text are present and made of hex digits; then every channel is `k / 255` for a byte `k`, and so lies in [0, 1] |
| ColorCodec.FieldOnGrid | color.clock.interpolated.py:112 | a decoded field of at most two digits is `k / 255` for a byte `k` |
| ColorCodec.StripHexColor | color.clock.interpolated.py:111 | on `#rrggbb` the strip removes exactly the one `#` |
| ColorCodec.RgbFromHexColor | color.clock.interpolated.py:109-112 | decoding `#rrggbb` succeeds, and each channel is its field's value over 255 |
| ColorCodec.DecodeHexFields | color.clock.interpolated.py:109-112 | decoding `#rrggbb` gives the three byte fields over 255 |
| ColorCodec.ChannelByteRange | color.clock.interpolated.py:116 | a channel in [0, 1] is written as a byte `int(x * 255)` in 0..255 |
| ColorCodec.RgbToHex | color.clock.interpolated.py:114-116 | `rgb_to_hex`; its spelling is proved in `ColorCodec.RgbToHexBytes`, `ColorCodec.RgbToHexFields` and `ColorCodec.RgbToHexShape` |
| ColorCodec.RgbToHexShape | color.clock.interpolated.py:114-116 | for channels in [0, 1], `rgb_to_hex` gives a string of the shape `#rrggbb` |
| ColorCodec.RgbToHexBytes | color.clock.interpolated.py:114-116 | for channels in [0, 1], `rgb_to_hex` is `#` followed by the two-digit spellings of the three bytes `int(channel * 255)` |
| ColorCodec.RgbToHexFields | color.clock.interpolated.py:114-116 | for channels in [0, 1], `rgb_to_hex` gives `#` and three two-digit lowercase hex fields, each reading back as `int(channel * 255)` |
| ColorCodec.HexBytesFields | color.clock.interpolated.py:116 | the spelling of three bytes has the shape `#rrggbb`, and its fields read back as the bytes |
| ColorCodec.ChannelByteOnGrid | color.clock.interpolated.py:112-116 | a channel `k / 255` is written as the byte `k` |
| ColorCodec.RgbFromHexBytes | color.clock.interpolated.py:109-112 | decoding the spelling of three bytes gives those bytes over 255 |
| ColorCodec.HexRoundTrip | color.clock.interpolated.py:109-116 | for channels of the form `k / 255`, `rgb_from_hex(rgb_to_hex(c)) == c` |
| ColorCodec.HexStringRoundTrip | color.clock.interpolated.py:109-116 | a string `#rrggbb` decodes to channels `k / 255`, and re-encoding them gives the same string |
| ColorCodec.HexColorFieldsHex | color.clock.interpolated.py:112 | the three two-character fields of `#rrggbb` are hex digits with values below 256 |
| ColorCodec.FieldByte | color.clock.interpolated.py:112 | a field of `#rrggbb` is a byte |
| ColorCodec.HslToRgb | color.clocks.py:104-106 | for channels in [0, 1], `hsl_to_rgb`'s result is `#` and three two-digit lowercase hex fields, each reading back as `int(x * 255)` |
| Tween.UpdateChannel | color.clock.interpolated.py:102-107 | the result lies between `current` and `target`, so the step never overshoots; its distance to the target is exactly `max(0, |current - target| - 0.01)` |
| Tween.UpdateChannelFixedPoint | color.clock.interpolated.py:104-107 | `update_channel(t, t) == t` |
| Tween.UpdateChannelProgress | color.clock.interpolated.py:102-107 | the distance to the target never grows, and strictly shrinks unless the target has been reached |
| Tween.TweenRgb | color.clock.interpolated.py:94 | stepping all three channels keeps colours in [0, 1], and leaves a colour equal to its target unchanged |
| Tween.StepsDistance | color.clock.interpolated.py:102-107 | after `n` exact steps the distance to the target is the old distance less `n * 0.01`, but not below zero |
| Tween.HundredStepsBlackToWhite | color.clock.interpolated.py:25 | on exact channels a hundred steps of 0.01 take 0 to 1 |
| Tween.QuantizedStep | color.clock.interpolated.py:94-95 | stepping a channel `k / 255` toward `j / 255` and writing it with `int(x * 255)` gives `k + 2` going up and `k - 3` going down, clamped at `j` |
| Tween.ByteStep | color.clock.interpolated.py:94-95 | one displayed step of a byte channel, which lands between the byte and the target; `Tween.QuantizedStep` proves it is what stepping and re-encoding does |
| Tween.ByteSteps | color.clock.interpolated.py:94-100 | `n` displayed steps of a byte channel; `Tween.ByteStepsClosedForm` gives their result |
| Tween.ByteStepsClosedForm | color.clock.interpolated.py:94-95 | after `n` displayed steps a byte has risen by `2n` or fallen by `3n`, clamped at the target |
| Tween.ByteStepsRange | color.clock.interpolated.py:94-100 | displayed steps between two bytes stay bytes |
| Tween.DisplayedBlackToWhite | color.clock.interpolated.py:94-100 | a channel rising from byte 0 toward 255, re-encoded every tick, is at 200 after 100 ticks and at 254 after 127, and reaches 255 at tick 128 |
| Tween.ChannelTicksToTarget | color.clock.interpolated.py:94-100 | toward a fixed target, a channel rising from 00 is at ff exactly when at least 128 ticks have passed, and one falling from ff is at 00 exactly when at least 85 have passed (it is at 03 after 84) |
| ClockFace.Caption | color.clocks.py:50 | the zone label reads `Current Zone: ` followed by the zone's name (`None` when there is no zone) |
| ZoneColors.InitialZoneColors | color.clocks.py:23 | at construction `zone_colors` has exactly one key per zone of the table, each mapped to `hsl_to_rgb` of that zone's channels |
| ZoneColors.Recolor | color.clocks.py:80-81 | after the overwrite no key is added or removed, and every value is the new colour |
| ZoneColors.RecolorZones | color.clock.interpolated.py:97-98 | the loop over the table's zones, run on a dictionary with one key per zone, ends with `Recolor`: the same keys, each mapped to the colour |
| ColorClocks.ZoneForeground | color.clocks.py:47-50 | the lookup `zone_colors[get_zone(h)]` succeeds exactly when the hour has a zone that is a key, with a value from the table; otherwise it raises `KeyError` carrying the looked-up key |
| ColorClocks.ForegroundDefinedFromSix | color.clocks.py:47-50 | with one key per zone, the lookup succeeds exactly for hours 6 and later, giving that zone's colour; for hours 0–5 it raises `KeyError: None` |
| ColorClocks.ZonesClock.constructor | color.clocks.py:23 | the new clock's `zone_colors` is the initial comprehension, with one key per zone |
| ColorClocks.ZonesClock.UpdateQuantumState | color.clocks.py:77-81 | every zone is set to `hsl_to_rgb` of the new channels; the key set is unchanged |
| ColorClocks.ZonesClock.UpdateClock | color.clocks.py:40-52 | from hour 6 on, the tick shows `HH:MM:SS`, the zone caption and the zone's colour from before the update, then recolours every zone; for hours 0–5 the lookup raises `KeyError: None` and the colours are untouched |
| InterpolatedClock.NextColor | color.clock.interpolated.py:86-95 | decoding, stepping and re-encoding two `#rrggbb` colours gives a `#rrggbb` colour |
| InterpolatedClock.NextColorDecoded | color.clock.interpolated.py:88-95 | the new colour is written from the decoded byte fields of both colours over 255 |
| InterpolatedClock.TweenBytes | color.clock.interpolated.py:94-95 | stepping byte channels and writing them again moves every field by `ByteStep` |
| InterpolatedClock.NextColorBytes | color.clock.interpolated.py:88-95 | every field of the displayed colour moves one `ByteStep` toward the target's field: up by 2 or down by 3, never past it |
| InterpolatedClock.NextColorFields | color.clock.interpolated.py:88-95 | after one colour tick each field of the displayed colour is `ByteStep` of the old field toward the target's field |
| InterpolatedClock.ColorTicks | color.clock.interpolated.py:86-100 | `n` calls of `update_color` toward a fixed target leave a `#rrggbb` colour |
| InterpolatedClock.ColorTicksFields | color.clock.interpolated.py:86-100 | after `n` colour ticks each displayed field is `ByteSteps` of the starting field toward the target's field: the byte step iterated `n` times |
| InterpolatedClock.DisplayedColorBlackToWhite | color.clock.interpolated.py:86-100 | a worked example of the colour tick: from `#000000` toward a fixed `#ffffff`, after `n` ticks `current_color` is the grey whose bytes are `min(2n, 255)`, and it is white exactly when `n >= 128` |
| InterpolatedClock.DisplayedColorAfterHundredTicks | color.clock.interpolated.py:86-100 | a hundred colour ticks from black toward a fixed white target leave `current_color` at `#c8c8c8`, not white |
| InterpolatedClock.NextColorFixedPoint | color.clock.interpolated.py:88-95 | once the displayed colour equals the target, a colour tick leaves it unchanged |
| InterpolatedClock.ColorClock.constructor | color.clock.interpolated.py:22-25 | `zone_colors` has one key per zone, and the current and target colours are both Morning's colour |
| InterpolatedClock.ColorClock.UpdateQuantumState | color.clock.interpolated.py:80-81 | only the target colour changes, to `hsl_to_rgb` of the new channels |
| InterpolatedClock.ColorClock.UpdateColor | color.clock.interpolated.py:86-98 | the current colour takes one step toward the target and stays `#rrggbb`; every zone is then set to it with no key added or removed; the target is untouched |
| InterpolatedClock.ColorClock.UpdateClock | color.clock.interpolated.py:43-55 | the tick shows `HH:MM:SS`, the zone caption (`None` before 6) and the current colour, then sets the new target |

## Left out

- The Tkinter window, labels, canvas, `after` timers and `mainloop` are GUI and event-loop plumbing. One scheduled tick is one method call. The labels are modelled only as the texts and colour a tick writes into them (`ClockFace.Display`).
- The PennyLane circuit, the Gaussian noise and the probability-to-hue mapping are a foreign simulation library, randomness and floating point. The channels `colorsys.hls_to_rgb` returns for the hue are a parameter of each update.
- `colorsys.hls_to_rgb` and the random initial hues of `__init__` are a library call and random input. The initial channels of each zone are a parameter (`initial`).
- The `quantum_state` vector and the arrow drawing are floating-point trigonometry used only for display.
- `datetime.now` and `time.time` are reads of the environment. Hours, minutes and seconds are parameters.
- The unused `scipy.optimize` import has nothing to model.
- Lines 89–92 of `color.clock.interpolated.py` are corrupted text. They are read as decoding the target colour with `rgb_from_hex`, like line 88 does for the current one.
- The constructors' own first `update_clock()` and `update_color()` calls are not part of the constructors. They are the separate `UpdateClock` and `UpdateColor` calls.
- ColorClocks.ZonesClock.UpdateClock: on the `KeyError` path it does not model that the time label was already set (line 49) before the lookup raised.
- Floating point: channels are exact reals. IEEE rounding of `c ± 0.01`, of `k / 255` and of `x * 255` is not modelled. The +2/−3 byte steps are the exact-real outcome.
- ParseHexField: reads a field only when it is made of hex digits. Python's `int(field, 16)` also accepts surrounding whitespace and a leading sign, and non-ASCII decimal digits such as `'٣'`, all of which the model reports as a failure. Strings of the encoder's shape, the only ones the programs decode, are unaffected.
- InterpolatedClock.ColorClock.constructor, InterpolatedClock.ColorClock.UpdateQuantumState and InterpolatedClock.ColorClock.UpdateClock: require channels in [0, 1]. That is what `colorsys.hls_to_rgb` returns at saturation 1 and lightness 0.5, the only arguments the programs pass it; the library itself is not part of this model.
- The `zone_colors` dictionary is mutated in place in the source. Here it is a `map` field that the methods reassign, built by the loop in `ZoneColors.RecolorZones`. Aliasing of the dictionary is not modelled; the programs hold no other reference to it.
