# Name field transform of the bunsen signup tutorial

The signup form edits a structured name `{first, last}` through one text box.
The custom input component `name-renderer` converts in both directions:

- `parseValue` splits the typed text on the ASCII space. The first piece is
  `first`. The other pieces, re-joined with single spaces, are `last`; `last`
  is `undefined` when there is only one piece. It also stores in the component
  whether the text ends with a space (`trailingSpace`).
- `renderValue` draws the box from the form value: nothing for no value,
  otherwise `first`, a single space when `trailingSpace` is set or `last` is a
  non-empty string, and `last`. Missing parts draw as empty text.

The model has two modules:

- `JsString` (`js_string.dfy`): JavaScript's `split` and `join` for a
  one-character separator, with the lemmas that each undoes the other.
- `NameRendererComponent` (`name_renderer.dfy`): the record (`NameRecord`,
  fields `Option<string>` for string-or-`undefined`), the pure `Parse` and
  `Render` functions, and the class `NameRenderer` whose field
  `trailingSpace` is the component state that `ParseValue` writes and
  `RenderValue` reads.

The headline property is `RenderParse`: for every text, rendering the record
a parse built, with the flag the same parse recorded, yields the text exactly.
`EditCycle` states the same through the component's own state.

Edge cases of the code that the model keeps exactly:

- Parsing `"Ada "` gives `last == ""`, present and empty, not an undefined
  `last` (`ParseTrailingSpaceExample`).
- Any trailing space sets the flag, however many there are
  (`ParseTwoTrailingSpacesExample`).
- `Parse(Render(r))` gives back `r` only under three conditions. `first` must be
  present and hold no space. An undefined `last` must be drawn without the
  flag, and an empty `last` with it (`ParseRender`). `RenderDropsEmptyLast`
  and `RenderMovesSpacedFirst` show two cases that fail. The round trip
  from text, `RenderParse`, holds for every text.

## Model

| member | source | states |
|---|---|---|
| `JsString.Split` | app/components/name-renderer.js:22 | `split(' ')` yields at least one piece, no piece contains the separator, the first piece is a prefix of the text, and there is one piece exactly when the text has no separator |
| `JsString.SplitNoSeparator` | app/components/name-renderer.js:22 | text without the separator splits into the one piece that is the whole text |
| `JsString.SplitAtFirst` | app/components/name-renderer.js:22 | the piece before the first separator comes first, and the remainder is split on its own |
| `JsString.JoinSplit` | app/components/name-renderer.js:22-29 | joining a split with the same separator gives back the original text |
| `JsString.SplitJoin` | app/components/name-renderer.js:22-29 | splitting a join of separator-free pieces gives back the pieces |
| `JsString.EndsWithSeparator` | app/components/name-renderer.js:22-23 | the text ends with the separator exactly when the split ends with an empty piece after at least one separator |
| `JsString.Join` | app/components/name-renderer.js:29 | `join(' ')` starts with the first piece, followed by the separator when there is a second piece |
| `JsString.JoinEndsWithLast` | app/components/name-renderer.js:29 | the joined text ends with the last piece |
| `NameRendererComponent.OrEmpty` | app/components/name-renderer.js:14-16 | the `''` fallback for a missing part is empty exactly when the part is falsy in the sense of `Truthy` (the truthiness of `name.last` tested at line 16), and is the part itself when it is truthy |
| `NameRendererComponent.HasTrailingSpace` | app/components/name-renderer.js:23 | `/ $/.test(text)` holds exactly when splitting the text on spaces leaves an empty last piece after at least one space |
| `NameRendererComponent.Parse` | app/components/name-renderer.js:22-30 | the returned `first` is always present, holds no space and is a prefix of the text; `last` is undefined exactly when the text has no space |
| `NameRendererComponent.TrailingSpaceOfParse` | app/components/name-renderer.js:22-29 | the flag is set exactly when the parse found a `last` that is empty or ends in a space |
| `NameRendererComponent.NameRenderer.constructor` | app/components/name-renderer.js:16 | before any parse the flag `this.get('trailingSpace')` reads is unset |
| `NameRendererComponent.NameRenderer.RenderValue` | app/components/name-renderer.js:7-19 | `renderValue` reads the component's flag: no record draws as `""`; otherwise `first`, then a space exactly when the component's flag is set or `last` is non-empty, then `last`, with missing parts as empty text |
| `NameRendererComponent.ParseNoSpace` | app/components/name-renderer.js:22-29 | text without a space (including the empty text) is all `first`, and `last` is undefined |
| `NameRendererComponent.ParseAtFirstSpace` | app/components/name-renderer.js:22-29 | with the first space at index i, `first` is the text before i and `last` is everything after i, unchanged |
| `NameRendererComponent.ParseLast` | app/components/name-renderer.js:22-29 | `first` is always present; `last` is undefined exactly when the text has no space; otherwise `first` has no space and `first + " " + last` is the text |
| `NameRendererComponent.NameRenderer.ParseValue` | app/components/name-renderer.js:21-31 | stores in `trailingSpace` whether the text is non-empty and ends in a space, and returns the parsed record |
| `NameRendererComponent.Render` | app/components/name-renderer.js:7-19 | no record draws as `""`; otherwise the text is `first`, then one space exactly when the flag is set or `last` is non-empty, then `last`, with missing parts as empty text |
| `NameRendererComponent.RenderMissingAsEmpty` | app/components/name-renderer.js:10-15 | a missing record draws as `""`; a missing `first` or `last` draws exactly as an empty one |
| `NameRendererComponent.RenderParse` | app/components/name-renderer.js:10-29 | for every text, rendering the parsed record with the flag recorded by the same parse gives the text back |
| `NameRendererComponent.EditCycle` | app/components/name-renderer.js:7-31 | parsing through the component and then rendering with the component's stored flag shows exactly the typed text, and the flag records the trailing space |
| `NameRendererComponent.ParseRender` | app/components/name-renderer.js:10-29 | a record whose `first` has no space, drawn so that an undefined and an empty `last` stay distinct, parses back to itself; the re-parse sets the flag exactly when `last` is empty or ends in a space |
| `NameRendererComponent.RenderDropsEmptyLast` | app/components/name-renderer.js:14-29 | an empty `last` drawn without the flag comes back as an undefined `last` |
| `NameRendererComponent.RenderMovesSpacedFirst` | app/components/name-renderer.js:14-29 | a space inside `first` moves everything after it into `last` on re-parse |
| `NameRendererComponent.ParseTrailingSpaceExample` | app/components/name-renderer.js:16-29 | `"Ada "` gives `first "Ada"`, `last ""` and the flag set; `"Ada"` gives an undefined `last` and no flag; `{Ada, undefined}` with the flag draws as `"Ada "` |
| `NameRendererComponent.ParseTwoTrailingSpacesExample` | app/components/name-renderer.js:22-29 | `"Ada  "` also sets the flag, with `last " "` |
| `NameRendererComponent.ParseEmptyExample` | app/components/name-renderer.js:22-29 | `""` gives an empty `first`, an undefined `last` and no flag |
| `NameRendererComponent.ParseMultiPartLastExample` | app/components/name-renderer.js:22-29 | `"Mary Jane Watson"` gives `first "Mary"` and `last "Jane Watson"` |

## Left out

- `app/controllers/signup.js`: the form schema and view are static data for the external bunsen rendering and validation engine; the actions are UI glue (storing the form value, a 3000 ms timer, a browser `alert` of the JSON form value). The only computed value, `errors.length !== 0`, is not modelled.
- `config/environment.js`: build configuration, no logic of the component.
- The `AbstractInput` base class, `classNames` and the Ember computed-property machinery (`Ember.computed(...).readOnly()`, caching keyed on `transformedValue`): `transformedValue` is passed to `Render` as a parameter, and the model does not capture when Ember recomputes it.
- The DOM event `target`: only `target.value` is modelled, as a string.
- JavaScript values other than strings and `undefined` in the record (numbers, `null`, objects): the record's fields are `Option<string>`, and a present record is `Some`.
- The initial `undefined` value of `trailingSpace` is modelled as `false`; both are falsy in the one place it is read.
- JavaScript strings are sequences of UTF-16 code units; here a `char` is a Unicode scalar value. Splitting on U+0020 and testing the last character give the same answers either way. But a lone surrogate cannot be represented, and the lengths in `Render`'s contract count scalar values, not JavaScript's `.length`.
