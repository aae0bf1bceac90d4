# Colorgrill pixel-art widget — Dafny model

This project models the behavioural core of the `Colorgrill` React component
(`grill-project-beta/src/components/Colorgrill.jsx`). The component is a 35×60
grid of color cells with an active color, click and drag painting, and a
reset button. The model has four modules:

- `HexColor` (`hex_color.dfy`): `hexToRgb`. It handles the optional `#`,
  the case-insensitive 3-digit and 6-digit patterns, and the doubling of
  shorthand digits. It returns `parseInt(_, 16)` of each digit pair, or
  `None` where the source returns `null`.
- `Grid` (`grid.dfy`): the grid as `seq<seq<Color>>` and `createMatriz`. It
  also has the pure grid-to-grid update done by `handleCellClick`. The clicked
  cell takes the active color verbatim (`Hex(code)`). Each in-bounds
  orthogonal neighbor takes `Rgba(r, g, b, 1)` built from the parsed
  channels. All other cells keep their value.
- `Colorgrill` (`colorgrill.dfy`): the state record {`matriz`,
  `currentColor`, `isMouseDown`} and its handlers as instantaneous
  transitions. The handlers are `handleCellClick`, `handleMouseDown`,
  `handleMouseUp`, `handleMouseEnter`, `handleChangeColor` and `resetGrill`.
  The module also defines event sequences and lemmas about gestures.
- `Wrappers` (`wrappers.dfy`): the `Option` type.

Two behaviours of the code are kept on purpose:

- The neighbor alpha is the literal `1` (`Grid.NeighborAlpha`). The comment
  beside it speaks of 60% opacity.
- Line 30 destructures `hexToRgb(currentColor)` without a null check. When the
  active color does not parse and some cell of the grid neighbors the target,
  the JavaScript throws a `TypeError` before `setMatriz` runs. `Grid.Paint`
  returns `None` in exactly that case, and the handler then leaves the state
  unchanged. The tint is never silently skipped. With a color that parses,
  `Paint` always succeeds.

Other behaviours of the code worth noting:

- Pressing the button on a cell does not paint it. `handleMouseDown` only
  raises the flag. A cell is painted by the click handler or by a mouse-enter
  while the flag is raised (`Colorgrill.DragGesture`).
- `handleCellClick` does not require the coordinates to be in range. An
  out-of-range target paints nothing but can still tint in-range neighbors.
  `Paint` accepts any integers for the same reason.

## Model

| member | source | states |
|---|---|---|
| HexColor.DigitValue | grill-project-beta/src/components/Colorgrill.jsx:44-52 | a digit of `[a-f\d]` (either case) has a base-16 value below 16; decimal digits below 10, letters 10 or above |
| HexColor.ParseHex | grill-project-beta/src/components/Colorgrill.jsx:50-52 | `parseInt(ds, 16)` of k hex digits is below 16^k, so a two-digit channel is a byte |
| HexColor.ExpandShorthand | grill-project-beta/src/components/Colorgrill.jsx:44-47 | a shorthand string becomes six hex digits, digit k being the original digit k/2 with `#` dropped; any other string is returned unchanged |
| HexColor.MatchFullForm | grill-project-beta/src/components/Colorgrill.jsx:48 | the six-digit pattern matches exactly the strings of six hex digits after an optional `#`, and the three groups concatenate to those digits |
| HexColor.HexToRgb | grill-project-beta/src/components/Colorgrill.jsx:43-54 | succeeds iff the input is a shorthand or six-digit hex string; a six-digit string yields the value of each digit pair; a shorthand string yields 17 times each digit; every channel lies in 0..255 |
| HexColor.ShorthandAgreesWithExpansion | grill-project-beta/src/components/Colorgrill.jsx:44-48 | a shorthand color parses to the same channels as its doubled six-digit form, with or without `#` |
| HexColor.ParseInitialColorExample | grill-project-beta/src/components/Colorgrill.jsx:6 | the initial color `#FFB1FF` parses to (255, 177, 255) |
| HexColor.ParseShorthandExample | grill-project-beta/src/components/Colorgrill.jsx:44-53 | `#abc` and `aabbcc` both parse to (170, 187, 204) |
| HexColor.ParseRejectExamples | grill-project-beta/src/components/Colorgrill.jsx:48-53 | `not-a-color`, a four-digit string and a doubled `#` all give no result |
| HexColor.PickerHexRoundTrip | grill-project-beta/src/components/Colorgrill.jsx:74-76 | any byte triple written as `#rrggbb`, the form the picker is assumed to report, parses back to that triple |
| Grid.CreateMatriz | grill-project-beta/src/components/Colorgrill.jsx:11-13 | `rows` rows of `cols` cells each, a negative length counting as 0, every cell `#FFFFFF` |
| Grid.CreateMatrizUnique | grill-project-beta/src/components/Colorgrill.jsx:11-13 | any all-white grid of a given shape equals the one `createMatriz` builds |
| Grid.Paint | grill-project-beta/src/components/Colorgrill.jsx:16-38 | fails exactly when the color does not parse and some grid cell is orthogonally adjacent to the target; otherwise keeps every row's length, sets the target to the active color, sets each in-bounds neighbor to `Rgba(r, g, b, 1)` of the parsed channels and leaves every other cell, diagonals included, unchanged |
| Grid.CreateMatrizValid | grill-project-beta/src/components/Colorgrill.jsx:11-13 | `#FFFFFF` parses to (255, 255, 255), so every cell of a fresh grid holds a valid color |
| Grid.PaintKeepsValidGrid | grill-project-beta/src/components/Colorgrill.jsx:17-38 | on a grid of at least two rows, a paint that does not throw keeps every cell valid: a color string that parses, or three bytes with alpha 1 |
| Grid.PaintIdempotent | grill-project-beta/src/components/Colorgrill.jsx:17-38 | painting the same cell twice with the same color gives the grid of painting it once |
| Grid.PaintCornerClipped | grill-project-beta/src/components/Colorgrill.jsx:24-35 | on a grid of at least 2×2, painting (0, 0) sets (0, 0), (0, 1) and (1, 0) and changes no other cell |
| Grid.PaintsCommute | grill-project-beta/src/components/Colorgrill.jsx:17-38 | two paints with the same color at distinct, non-adjacent cells give the same grid in either order |
| Colorgrill.Initial | grill-project-beta/src/components/Colorgrill.jsx:6-8 | on mount the grid is the 35×60 all-white grid of valid cells, the active color is the string `#FFB1FF`, which parses to (255, 177, 255), and the button is up |
| Colorgrill.HandleCellClick | grill-project-beta/src/components/Colorgrill.jsx:16-40 | the grid keeps its shape; unless the handler throws, the clicked in-bounds cell takes the active color; with a parsing color each in-bounds neighbor takes `Rgba(r, g, b, 1)`; no other cell changes; with a non-parsing color next to a neighbor the handler throws and the state is unchanged; color and flag are kept |
| Colorgrill.HandleMouseDown | grill-project-beta/src/components/Colorgrill.jsx:57-59 | the pressed flag is set; grid and color are unchanged |
| Colorgrill.HandleMouseUp | grill-project-beta/src/components/Colorgrill.jsx:62-64 | the pressed flag is cleared; grid and color are unchanged |
| Colorgrill.HandleMouseEnter | grill-project-beta/src/components/Colorgrill.jsx:67-71 | with the button up the state is unchanged; with it held the effect is that of a click on the cell |
| Colorgrill.HandleChangeColor | grill-project-beta/src/components/Colorgrill.jsx:74-76 | only the active color changes, to the reported hex string; grid and flag are unchanged |
| Colorgrill.ResetGrill | grill-project-beta/src/components/Colorgrill.jsx:79-81 | the grid becomes the 35×60 all-white grid whatever it held; color and flag are unchanged |
| Colorgrill.Step | grill-project-beta/src/components/Colorgrill.jsx:92-110 | each input reaches its handler as wired in the markup: a cell click is `handleCellClick` on that cell, a hover is `handleMouseEnter` on that cell, the reset button yields the 35×60 all-white grid; only a color change alters the active color (to the reported string); only a press or a release alters the flag (raising or clearing it); neither of those nor a color change alters the grid; a 35×60 grid stays 35×60 |
| Colorgrill.ResetIdempotent | grill-project-beta/src/components/Colorgrill.jsx:79-81 | resetting twice equals resetting once, and a reset grid equals the grid at mount |
| Colorgrill.RunKeepsShape | grill-project-beta/src/components/Colorgrill.jsx:17-18 | after any sequence of events the grid still has 35 rows of 60 cells |
| Colorgrill.StepKeepsValidGrid | grill-project-beta/src/components/Colorgrill.jsx:92-110 | any single event keeps every cell of a 35×60 grid of valid cells valid, whatever color was picked |
| Colorgrill.RunKeepsValidGrid | grill-project-beta/src/components/Colorgrill.jsx:16-40 | after any sequence of events from a 35×60 grid of valid cells, every cell still holds a valid color |
| Colorgrill.RunKeepsColorParsing | grill-project-beta/src/components/Colorgrill.jsx:74-76 | if the active color parses and every picked color parses, the active color still parses after any sequence of events |
| Colorgrill.ReleasedHoverPaintsNothing | grill-project-beta/src/components/Colorgrill.jsx:62-71 | with the button up, any sequence of hovers and releases leaves the state unchanged |
| Colorgrill.DragGesture | grill-project-beta/src/components/Colorgrill.jsx:57-71 | press, enter (row, col), release and any later hovers give exactly the grid painted once at (row, col), with the button up |
| Colorgrill.PlainClickPaintsOnce | grill-project-beta/src/components/Colorgrill.jsx:16-71 | press, release, click paints the clicked cell exactly once |

## Left out

- Rendering (lines 83-124): the JSX layout, CSS-module class names, inline styles, the title and the reset button's inner markup. They are presentation. The event bindings in that markup are modelled by `Colorgrill.Step`.
- `ChromePicker` from `react-color`: its internals are not part of this model. A color change is an event carrying a string. `HexColor.PickerHex` only models the `#rrggbb` form the picker is assumed to report.
- React hook semantics: `useState` batching, handlers closing over a stale `matriz` during fast drags, and re-render scheduling. Each handler is an instantaneous transition on an explicit state record.
- The text formatting of `rgba(r, g, b, 1)`: neighbor colors are kept structurally as `Rgba(r, g, b, alpha)`.
- DOM event dispatch: which events the browser delivers, in which order, and to which element (for example, whether a click fires after a drag). Events are abstract inputs.
- Grid.CreateMatriz: does not model the `RangeError` that `Array.from` raises for a length of 2^32 or more. The model returns a grid of that length instead. The widget only calls it with 35 and 60.
- Non-integer or non-numeric indices and lengths, which JavaScript would accept: indices and lengths are integers.
