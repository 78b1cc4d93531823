# Go-to dialog target resolver (6502bench SourceGen)

This project models the "Go to" dialog of the SourceGen disassembler. The user types an
offset, a label or an address. The dialog turns that text into a file offset of the
project, or -1 for "none". It then shows the offset, the address and the label found
there, and enables its "Go" button exactly when there is a target.

The resolver strips white space from the text (`string.Trim`), then tries three
interpretations in a fixed order:

1. A leading `+` makes the rest a hexadecimal offset, converted by
   `Convert.ToInt32(s, 16)`. This choice is final. The value must lie in
   `[0, FileDataLength)`, and a conversion that throws gives "none".
2. Otherwise the text is tried as a label. A label carrying the non-unique prefix is first
   narrowed to the best match for the offset the dialog was opened at (the anchor), then
   looked up by name.
3. Otherwise the text is parsed as an address below `1 << 24` and mapped to an offset
   from the anchor. If that mapping fails, it is retried once with region isolation
   ignored.

The model has four files.

- `wrappers.dfy` holds the `Option` type.
- `dotnet.dfy` holds the two pieces of the .NET base library that the resolver's own
  decisions depend on:
  - `string.Trim`, over the `char.IsWhiteSpace` set;
  - `Convert.ToInt32(s, 16)`, which accepts one `+` sign and a `0x` prefix, rejects a
    `-` in base 16, overflows past 32 bits, rejects trailing characters and reads the
    top bit as the sign. Each exception it can throw becomes `None`.
- `collaborators.dfy` holds the project, the formatter and the label/address parsers as
  datatypes of function values. Nothing is assumed about what those functions return.
- `goto.dfy` holds the resolver and the dialog:
  - `Resolve` is the decision procedure as a pure function;
  - `Queries` is the ordered list of questions it puts to the collaborators;
  - `Display` is the three display strings;
  - the class `GotoBox` holds the dialog's fields, and its methods `ProcessInput`,
    `UpdateDisplay` and `TextChanged` are proved to compute exactly those functions.

`Queries` makes "consults no collaborator" and "is never asked" provable statements. The
ghost field `GotoBox.consulted` records the questions the method actually asks, and the
method is proved to ask exactly `Queries`. `QueriesDetermineResult` proves the log is
complete: two environments that give the same answers to the logged questions produce
the same target.

## Model

| member | source | states |
|---|---|---|
| DotNet.Trim | SourceGen/WpfGui/GotoBox.xaml.cs:132 | The trimmed text is no longer than the input, and it is empty or starts and ends with a non-white character |
| DotNet.TrimRemovesOnlyEnds | SourceGen/WpfGui/GotoBox.xaml.cs:132 | The trimmed text is a contiguous slice of the input, and everything outside that slice is white space |
| DotNet.TrimAllWhite | SourceGen/WpfGui/GotoBox.xaml.cs:132-134 | The trimmed text is empty exactly when every character of the input is white space |
| DotNet.TrimKeepsTrimmed | SourceGen/WpfGui/GotoBox.xaml.cs:132 | A text with non-white ends is left unchanged by trimming |
| DotNet.AsInt32 | SourceGen/WpfGui/GotoBox.xaml.cs:139 | A 32-bit pattern read as a signed value lies in the int range, is non-negative exactly when the top bit is clear, and is congruent to the pattern modulo 2^32 |
| DotNet.GrabHex | SourceGen/WpfGui/GotoBox.xaml.cs:139 | The conversion's digit loop, when it does not overflow, yields a value below 2^32 and stops at the first character that is not a hex digit, or at the end of the text |
| DotNet.ToInt32Hex | SourceGen/WpfGui/GotoBox.xaml.cs:139 | Every successful conversion yields a value in the signed 32-bit range |
| DotNet.ToInt32HexOfDigits | SourceGen/WpfGui/GotoBox.xaml.cs:139 | Any non-empty run of hex digits, in either case and with any leading zeros, after nothing, `+`, `0x`, `0X` or the sign and a prefix, converts to its value read as a signed 32-bit value, and overflows when the value needs more than 32 bits |
| DotNet.ToInt32HexAcceptsOnlyDigits | SourceGen/WpfGui/GotoBox.xaml.cs:139 | Conversely, any text that converts is an accepted sign and prefix followed by a non-empty run of hex digits whose value is the result, so a text with any other character, or with no digits, fails |
| DotNet.ToInt32HexLowerCase | SourceGen/WpfGui/GotoBox.xaml.cs:139 | `ff` converts to 255 |
| DotNet.ToInt32HexLeadingZeros | SourceGen/WpfGui/GotoBox.xaml.cs:139 | `00A0` converts to 160 |
| DotNet.ToInt32HexPrefixed | SourceGen/WpfGui/GotoBox.xaml.cs:139 | `0x10` converts to 16 |
| DotNet.ToInt32HexRejectsMalformed | SourceGen/WpfGui/GotoBox.xaml.cs:139 | The empty text, a bare `0x`, `-1`, `zz`, `1z` and `1 ` (a trailing space) all fail |
| DotNet.ToInt32HexOfToHex | SourceGen/WpfGui/GotoBox.xaml.cs:139 | Round trip: the hex spelling of n converts back to n read as a signed 32-bit value when n is below 2^32, and overflows otherwise |
| DotNet.ToInt32HexOfSignedToHex | SourceGen/WpfGui/GotoBox.xaml.cs:139 | One leading `+` does not change the conversion of a hex spelling |
| DotNet.ToInt32HexBoundaries | SourceGen/WpfGui/GotoBox.xaml.cs:139-140 | `7FFFFFFF` gives 2^31-1; `80000000` gives -2^31 and `FFFFFFFF` gives -1, which the offset check rejects; `100000000` overflows |
| Goto.OffsetLiteral | SourceGen/WpfGui/GotoBox.xaml.cs:136-146 | The offset interpretation is -1 or a valid offset in `[0, FileDataLength)` |
| Goto.LabelOffset | SourceGen/WpfGui/GotoBox.xaml.cs:150-165 | The label interpretation is -1 for an invalid label, and otherwise -1 or the name lookup's answer for some name |
| Goto.AddressOffset | SourceGen/WpfGui/GotoBox.xaml.cs:169-182 | The address interpretation is -1 or non-negative |
| Goto.Resolve | SourceGen/WpfGui/GotoBox.xaml.cs:129-183 | The target is always -1 or non-negative, and a `+` literal never yields an offset at or beyond the file length |
| Goto.LabelStepDetermined | SourceGen/WpfGui/GotoBox.xaml.cs:150-165 | The label step's questions and result depend only on the answers to its own questions |
| Goto.AddressStepDetermined | SourceGen/WpfGui/GotoBox.xaml.cs:169-182 | The address step's questions and result depend only on the answers to its own questions |
| Goto.QueriesDetermineResult | SourceGen/WpfGui/GotoBox.xaml.cs:129-183 | Two environments that answer every logged question alike ask the same questions and resolve to the same target, so the target depends only on the text, the anchor and the collaborators' answers |
| Goto.BlankInputConsultsNothing | SourceGen/WpfGui/GotoBox.xaml.cs:130-135 | Empty or all-white text resolves to -1 and asks no collaborator anything |
| Goto.OffsetLiteralIsFinal | SourceGen/WpfGui/GotoBox.xaml.cs:136-146 | After a leading `+` no label or address question is asked, and the file length is read exactly when the conversion yields a non-negative value; the result is the converted value when the conversion succeeds and the value is in `[0, FileDataLength)`, and -1 otherwise, including every case where the conversion throws |
| Goto.PlusHexResolvesToOffset | SourceGen/WpfGui/GotoBox.xaml.cs:136-146 | `+` followed by the hex spelling of n resolves to n exactly when n is below both the file length and 2^31, and to -1 otherwise |
| Goto.PlusFileDataLengthIsNone | SourceGen/WpfGui/GotoBox.xaml.cs:140 | `+` followed by the hex spelling of `FileDataLength` resolves to -1 |
| Goto.PlusZeroIsFirstOffset | SourceGen/WpfGui/GotoBox.xaml.cs:139-141 | `+0` resolves to offset 0 in any non-empty file |
| Goto.InvalidLabelIsNotLookedUp | SourceGen/WpfGui/GotoBox.xaml.cs:150-155 | For an invalid label, the label step asks only the validator, and the result is that of the address step |
| Goto.NonUniqueLabelNotFound | SourceGen/WpfGui/GotoBox.xaml.cs:155-161 | A non-unique label with no best match asks the validator and then the best-match search, and the address step decides the result |
| Goto.NonUniqueLabelFound | SourceGen/WpfGui/GotoBox.xaml.cs:155-168 | A non-unique label is narrowed by the anchor and then looked up by the matched symbol's label; a found offset is the result, and otherwise the address step decides |
| Goto.UniqueLabelLookup | SourceGen/WpfGui/GotoBox.xaml.cs:162-168 | A unique valid label is looked up by its trimmed name; a found offset is the result, and otherwise the address step decides |
| Goto.LabelTakesPrecedence | SourceGen/WpfGui/GotoBox.xaml.cs:167-169 | When the label step finds an offset, that offset is the result, and neither the address parser nor the address map is asked |
| Goto.AddressFallback | SourceGen/WpfGui/GotoBox.xaml.cs:169-182 | A parse failure gives -1 after one question; otherwise the retry is asked exactly when the first mapping is negative, a non-negative first mapping is the result, then a non-negative retry, and -1 when both are negative |
| Goto.RetryOnlyAfterIsolatedMiss | SourceGen/WpfGui/GotoBox.xaml.cs:169-178 | The isolation-breaking retry for an address is asked exactly when the text is neither a `+` literal nor a found label, parses as that address, and the first mapping failed |
| Goto.ResultHasASource | SourceGen/WpfGui/GotoBox.xaml.cs:129-183 | A non-negative target is a valid converted `+` literal, the label step's answer, or an address-map answer to a question actually asked |
| Goto.Display | SourceGen/WpfGui/GotoBox.xaml.cs:185-203 | For a negative offset all three strings are empty, and the address string is empty exactly when the offset is negative |
| Goto.DisplayOfValidOffset | SourceGen/WpfGui/GotoBox.xaml.cs:190-198 | For a valid offset: the formatted offset is shown; the address string is `$` followed by the address in the wide form exactly when it is above `0xffff`; the label string is empty with no symbol and is the symbol's display label otherwise |
| Goto.LabelRoundTrip | SourceGen/WpfGui/GotoBox.xaml.cs:162-168 | Going to a unique label whose symbol the project defines at the reported offset shows that symbol's display label |
| Goto.GotoBox.constructor | SourceGen/WpfGui/GotoBox.xaml.cs:95-104 | A new dialog keeps the project, formatter and anchor it is given, has target -1, and has nothing enabled or asked |
| Goto.GotoBox.ProcessInput | SourceGen/WpfGui/GotoBox.xaml.cs:129-183 | The target field becomes `Resolve` of the typed text, and the questions asked are exactly `Queries`, in order |
| Goto.GotoBox.UpdateDisplay | SourceGen/WpfGui/GotoBox.xaml.cs:185-203 | The three display fields become `Display` of the current target |
| Goto.GotoBox.TextChanged | SourceGen/WpfGui/GotoBox.xaml.cs:123-127 | After a text change, the target, the questions and the display match the specification, "Go" is enabled exactly when the target is non-negative, and it is enabled exactly when an address is shown |

## Left out

- WPF plumbing is not modelled: `InitializeComponent`, `Owner`, `DataContext`, the focus call in `Window_Loaded`, the ESC handler and `GoButton_Click`/`DialogResult`.
- `Window_Loaded`'s first `UpdateDisplay` is not modelled separately. The constructor already starts the three strings at "", which is what that call shows for target -1. In C# they are `null` until then.
- `INotifyPropertyChanged` is not modelled: the property setters only raise change notifications.
- The collaborators are uninterpreted function values: `Symbol.TrimAndValidateLabel`, `Address.ParseAddress`, `DisasmProject.FindLabelOffsetByName` and `FindBestNonUniqueLabel`, `AddrMap.AddressToOffset`, `GetAnattrib`, `Formatter.FormatOffset24` and `FormatAddress`, and `Symbol.GenerateDisplayLabel`. What "best" non-unique match, region isolation and the `$` prefix for hex-named labels mean lies inside them.
- `TrimAndValidateLabel`'s outputs that the dialog discards are not modelled.
- The two-argument `AddressToOffset(offset, addr)` is modelled as the three-argument call with region isolation respected (`false`).
- The text box is a parameter of `ProcessInput` and `TextChanged`, not a field of the dialog.
- `ProcessInput` computes its answer in locals and writes `targetOffset` once at the end. The C# resets `TargetOffset` to -1 and then overwrites it on success. Nothing else reads the field in between, so the end state is the same.
- Strings are sequences of Unicode scalar values. UTF-16 surrogate pairs are not modelled; `char.IsWhiteSpace` and the hex digits involve none.
- `FileDataLength` and the collaborators' offsets are unbounded integers. The source's 32-bit wrap-around appears only where it decides something: in the conversion of a `+` literal.
- DisplayOfValidOffset: states "no symbol gives an empty label string". The converse holds only if `GenerateDisplayLabel` never returns an empty string, which lies outside this model.
