/** The Go-to dialog's target resolver and its display of the resolved target.

    `Resolve` is the decision procedure as a function of the typed text, the offset the
    dialog was opened at (the anchor) and the collaborators; `Queries` is the list of
    collaborator questions that procedure asks, in order. The class `GotoBox` does the
    same work step by step on its fields and is proved to agree with both. */
module Goto {
  import opened Wrappers
  import opened DotNet
  import opened Collaborators

  /** The address parser's limit, `1 << 24`. */
  const MaxAddress := 0x100_0000

  /** One question put to a collaborator. */
  datatype Query =
    | DataLength
    | ValidateLabel(input: string)
    | BestNonUniqueLabel(name: string, anchor: int)
    | LabelOffsetByName(name: string)
    | ParseAddress(input: string, max: int)
    | AddressToOffset(anchor: int, address: int, breakIsolation: bool)

  // ---------------------------------------------------------------------------
  // The three interpretations

  /** A `+` offset literal: the hex value, if the conversion succeeds and the value is
      a valid file offset; -1 otherwise. */
  function OffsetLiteral(digits: string, fileDataLength: int): (r: int)
    ensures r == -1 || 0 <= r < fileDataLength
  {
    match ToInt32Hex(digits)
    case Some(v) => if 0 <= v < fileDataLength then v else -1
    case None => -1
  }

  /** The label interpretation; -1 when the text is not a valid label or no symbol is
      found. A non-unique label is first narrowed to the best match for the anchor. */
  function LabelOffset(input: string, env: Env, anchor: int): (r: int)
    ensures !env.syntax.trimAndValidateLabel(input, env.formatter.nonUniqueLabelPrefix).isValid
      ==> r == -1
    ensures r == -1 || exists name :: r == env.project.findLabelOffsetByName(name)
  {
    var check := env.syntax.trimAndValidateLabel(input, env.formatter.nonUniqueLabelPrefix);
    if !check.isValid then -1
    else if check.hasNonUniquePrefix then
      match env.project.findBestNonUniqueLabel(check.trimmed, anchor)
      case None => -1
      case Some(sym) => env.project.findLabelOffsetByName(sym.labelName)
    else env.project.findLabelOffsetByName(check.trimmed)
  }

  /** The address interpretation, with one retry that ignores region isolation. */
  function AddressOffset(input: string, env: Env, anchor: int): (r: int)
    ensures r == -1 || r >= 0
  {
    match env.syntax.parseAddress(input, MaxAddress)
    case None => -1
    case Some(addr) =>
      var first := env.project.addressToOffset(anchor, addr, false);
      var offset := if first < 0 then env.project.addressToOffset(anchor, addr, true) else first;
      if offset >= 0 then offset else -1
  }

  /** The target offset for the typed `text`, or -1 for "none". */
  function Resolve(text: string, env: Env, anchor: int): (r: int)
    ensures r == -1 || r >= 0
    ensures r >= 0 && Trim(text) != [] && Trim(text)[0] == '+' ==> r < env.project.fileDataLength
  {
    var input := Trim(text);
    if input == [] then -1
    else if input[0] == '+' then OffsetLiteral(input[1..], env.project.fileDataLength)
    else
      var labelOffset := LabelOffset(input, env, anchor);
      if labelOffset >= 0 then labelOffset else AddressOffset(input, env, anchor)
  }

  // ---------------------------------------------------------------------------
  // Which collaborators are consulted

  /** The offset literal reads the file length only after a conversion that succeeded
      with a non-negative value: the range check short-circuits on a negative one, and
      a conversion that throws skips it. */
  function OffsetQueries(digits: string): seq<Query> {
    match ToInt32Hex(digits)
    case Some(v) => if v >= 0 then [DataLength] else []
    case None => []
  }

  function LabelQueries(input: string, env: Env, anchor: int): seq<Query> {
    var check := env.syntax.trimAndValidateLabel(input, env.formatter.nonUniqueLabelPrefix);
    var asked := [ValidateLabel(input)];
    if !check.isValid then asked
    else if check.hasNonUniquePrefix then
      var asked := asked + [BestNonUniqueLabel(check.trimmed, anchor)];
      match env.project.findBestNonUniqueLabel(check.trimmed, anchor)
      case None => asked
      case Some(sym) => asked + [LabelOffsetByName(sym.labelName)]
    else asked + [LabelOffsetByName(check.trimmed)]
  }

  function AddressQueries(input: string, env: Env, anchor: int): seq<Query> {
    var asked := [ParseAddress(input, MaxAddress)];
    match env.syntax.parseAddress(input, MaxAddress)
    case None => asked
    case Some(addr) =>
      var asked := asked + [AddressToOffset(anchor, addr, false)];
      if env.project.addressToOffset(anchor, addr, false) < 0
      then asked + [AddressToOffset(anchor, addr, true)] else asked
  }

  /** The questions `Resolve` puts to the collaborators, in the order it asks them. */
  function Queries(text: string, env: Env, anchor: int): seq<Query> {
    var input := Trim(text);
    if input == [] then []
    else if input[0] == '+' then OffsetQueries(input[1..])
    else
      var labelQueries := LabelQueries(input, env, anchor);
      if LabelOffset(input, env, anchor) >= 0 then labelQueries
      else labelQueries + AddressQueries(input, env, anchor)
  }

  /** `e1` and `e2` give the same answer to `q`. */
  predicate SameAnswer(q: Query, e1: Env, e2: Env) {
    match q
    case DataLength =>
      e1.project.fileDataLength == e2.project.fileDataLength
    case ValidateLabel(input) =>
      e1.formatter.nonUniqueLabelPrefix == e2.formatter.nonUniqueLabelPrefix &&
      e1.syntax.trimAndValidateLabel(input, e1.formatter.nonUniqueLabelPrefix)
        == e2.syntax.trimAndValidateLabel(input, e2.formatter.nonUniqueLabelPrefix)
    case BestNonUniqueLabel(name, anchor) =>
      e1.project.findBestNonUniqueLabel(name, anchor) == e2.project.findBestNonUniqueLabel(name, anchor)
    case LabelOffsetByName(name) =>
      e1.project.findLabelOffsetByName(name) == e2.project.findLabelOffsetByName(name)
    case ParseAddress(input, max) =>
      e1.syntax.parseAddress(input, max) == e2.syntax.parseAddress(input, max)
    case AddressToOffset(anchor, address, breakIsolation) =>
      e1.project.addressToOffset(anchor, address, breakIsolation)
        == e2.project.addressToOffset(anchor, address, breakIsolation)
  }

  predicate AgreeOn(qs: seq<Query>, e1: Env, e2: Env) {
    forall q :: q in qs ==> SameAnswer(q, e1, e2)
  }

  /** The label step depends only on the answers to its own questions. */
  lemma LabelStepDetermined(input: string, e1: Env, e2: Env, anchor: int)
    requires AgreeOn(LabelQueries(input, e1, anchor), e1, e2)
    ensures LabelQueries(input, e2, anchor) == LabelQueries(input, e1, anchor)
    ensures LabelOffset(input, e2, anchor) == LabelOffset(input, e1, anchor)
  {
    var qs := LabelQueries(input, e1, anchor);
    assert SameAnswer(qs[0], e1, e2);
    var check := e1.syntax.trimAndValidateLabel(input, e1.formatter.nonUniqueLabelPrefix);
    if check.isValid {
      assert SameAnswer(qs[1], e1, e2);
      if check.hasNonUniquePrefix && e1.project.findBestNonUniqueLabel(check.trimmed, anchor).Some? {
        assert SameAnswer(qs[2], e1, e2);
      }
    }
  }

  /** The address step depends only on the answers to its own questions. */
  lemma AddressStepDetermined(input: string, e1: Env, e2: Env, anchor: int)
    requires AgreeOn(AddressQueries(input, e1, anchor), e1, e2)
    ensures AddressQueries(input, e2, anchor) == AddressQueries(input, e1, anchor)
    ensures AddressOffset(input, e2, anchor) == AddressOffset(input, e1, anchor)
  {
    var qs := AddressQueries(input, e1, anchor);
    assert SameAnswer(qs[0], e1, e2);
    match e1.syntax.parseAddress(input, MaxAddress)
    case None =>
    case Some(addr) =>
      assert SameAnswer(qs[1], e1, e2);
      if e1.project.addressToOffset(anchor, addr, false) < 0 {
        assert SameAnswer(qs[2], e1, e2);
      }
  }

  /** The query log is complete: two environments that answer every logged question
      alike ask the same questions and resolve to the same target. So the result depends
      on the text, the anchor and the logged answers only. */
  lemma QueriesDetermineResult(text: string, e1: Env, e2: Env, anchor: int)
    requires AgreeOn(Queries(text, e1, anchor), e1, e2)
    ensures Queries(text, e2, anchor) == Queries(text, e1, anchor)
    ensures Resolve(text, e2, anchor) == Resolve(text, e1, anchor)
  {
    var input := Trim(text);
    var qs := Queries(text, e1, anchor);
    if input == [] {
    } else if input[0] == '+' {
      if qs != [] {
        assert SameAnswer(qs[0], e1, e2);
      }
    } else {
      var lq := LabelQueries(input, e1, anchor);
      if LabelOffset(input, e1, anchor) >= 0 {
        assert qs == lq;
        LabelStepDetermined(input, e1, e2, anchor);
      } else {
        var aq := AddressQueries(input, e1, anchor);
        assert qs == lq + aq;
        assert AgreeOn(lq, e1, e2) && AgreeOn(aq, e1, e2);
        LabelStepDetermined(input, e1, e2, anchor);
        AddressStepDetermined(input, e1, e2, anchor);
      }
    }
  }

  // ---------------------------------------------------------------------------
  // The resolver's promises

  /** Empty or all-white input resolves to "none" and consults nobody. */
  lemma BlankInputConsultsNothing(text: string, env: Env, anchor: int)
    requires forall k :: 0 <= k < |text| ==> IsWhiteSpace(text[k])
    ensures Queries(text, env, anchor) == []
    ensures Resolve(text, env, anchor) == -1
  {
    TrimAllWhite(text);
  }

  /** A leading `+` commits to the offset literal: no label or address question is
      asked, the file length is read exactly when the conversion yields a non-negative
      value, and the result is that value when it is a valid offset and -1 otherwise,
      including every case in which the conversion throws. */
  lemma OffsetLiteralIsFinal(text: string, env: Env, anchor: int)
    requires Trim(text) != [] && Trim(text)[0] == '+'
    ensures var v := ToInt32Hex(Trim(text)[1..]);
      Queries(text, env, anchor) == if v.Some? && v.value >= 0 then [DataLength] else []
    ensures var v := ToInt32Hex(Trim(text)[1..]);
      Resolve(text, env, anchor) ==
        if v.Some? && 0 <= v.value < env.project.fileDataLength then v.value else -1
  {
  }

  /** `"+"` followed by the hex spelling of `n` goes to offset `n` exactly when `n` is
      below the file length and fits in a non-negative 32-bit `int`. */
  lemma PlusHexResolvesToOffset(n: nat, env: Env, anchor: int)
    ensures Resolve("+" + ToHex(n), env, anchor) ==
      if n < env.project.fileDataLength && n < Int32Range then n else -1
  {
    var s := "+" + ToHex(n);
    assert IsHexDigit(s[|s| - 1]);
    TrimKeepsTrimmed(s);
    assert s[1..] == ToHex(n);
    ToInt32HexOfToHex(n);
  }

  /** The length bound is exclusive: `"+"` followed by the hex of the file length is
      "none". */
  lemma PlusFileDataLengthIsNone(env: Env, anchor: int)
    requires env.project.fileDataLength >= 0
    ensures Resolve("+" + ToHex(env.project.fileDataLength), env, anchor) == -1
  {
    PlusHexResolvesToOffset(env.project.fileDataLength, env, anchor);
  }

  /** `"+0"` is offset 0 in any non-empty file. */
  lemma PlusZeroIsFirstOffset(env: Env, anchor: int)
    requires env.project.fileDataLength > 0
    ensures Resolve("+0", env, anchor) == 0
  {
    assert ToHex(0) == "0";
    assert "+" + ToHex(0) == "+0";
    PlusHexResolvesToOffset(0, env, anchor);
  }

  /** An invalid label is never looked up: the label step asks only the validator, and
      the result is that of the address step. */
  lemma InvalidLabelIsNotLookedUp(text: string, env: Env, anchor: int)
    requires Trim(text) != [] && Trim(text)[0] != '+'
    requires !env.syntax.trimAndValidateLabel(Trim(text), env.formatter.nonUniqueLabelPrefix).isValid
    ensures Queries(text, env, anchor) ==
      [ValidateLabel(Trim(text))] + AddressQueries(Trim(text), env, anchor)
    ensures Resolve(text, env, anchor) == AddressOffset(Trim(text), env, anchor)
  {
  }

  /** A non-unique label is first narrowed by the anchor; when no symbol is found,
      the label step yields nothing and the address step decides. */
  lemma NonUniqueLabelNotFound(text: string, env: Env, anchor: int)
    requires Trim(text) != [] && Trim(text)[0] != '+'
    requires var check := env.syntax.trimAndValidateLabel(Trim(text), env.formatter.nonUniqueLabelPrefix);
      check.isValid && check.hasNonUniquePrefix
      && env.project.findBestNonUniqueLabel(check.trimmed, anchor).None?
    ensures var check := env.syntax.trimAndValidateLabel(Trim(text), env.formatter.nonUniqueLabelPrefix);
      Queries(text, env, anchor)
        == [ValidateLabel(Trim(text)), BestNonUniqueLabel(check.trimmed, anchor)]
           + AddressQueries(Trim(text), env, anchor)
    ensures Resolve(text, env, anchor) == AddressOffset(Trim(text), env, anchor)
  {
  }

  /** A non-unique label narrowed to a symbol is looked up by that symbol's label. */
  lemma NonUniqueLabelFound(text: string, env: Env, anchor: int, sym: Symbol)
    requires Trim(text) != [] && Trim(text)[0] != '+'
    requires var check := env.syntax.trimAndValidateLabel(Trim(text), env.formatter.nonUniqueLabelPrefix);
      check.isValid && check.hasNonUniquePrefix
      && env.project.findBestNonUniqueLabel(check.trimmed, anchor) == Some(sym)
    ensures var check := env.syntax.trimAndValidateLabel(Trim(text), env.formatter.nonUniqueLabelPrefix);
      Queries(text, env, anchor)[..3]
        == [ValidateLabel(Trim(text)), BestNonUniqueLabel(check.trimmed, anchor), LabelOffsetByName(sym.labelName)]
    ensures var found := env.project.findLabelOffsetByName(sym.labelName);
      Resolve(text, env, anchor) == if found >= 0 then found else AddressOffset(Trim(text), env, anchor)
  {
    var input := Trim(text);
    var lq := LabelQueries(input, env, anchor);
    assert |lq| == 3;
    var qs := Queries(text, env, anchor);
    assert qs == lq || qs == lq + AddressQueries(input, env, anchor);
    assert qs[..3] == lq;
  }

  /** A unique label is looked up by its trimmed name. */
  lemma UniqueLabelLookup(text: string, env: Env, anchor: int)
    requires Trim(text) != [] && Trim(text)[0] != '+'
    requires var check := env.syntax.trimAndValidateLabel(Trim(text), env.formatter.nonUniqueLabelPrefix);
      check.isValid && !check.hasNonUniquePrefix
    ensures var check := env.syntax.trimAndValidateLabel(Trim(text), env.formatter.nonUniqueLabelPrefix);
      var found := env.project.findLabelOffsetByName(check.trimmed);
      Queries(text, env, anchor)[..2] == [ValidateLabel(Trim(text)), LabelOffsetByName(check.trimmed)]
      && (found >= 0 ==> Resolve(text, env, anchor) == found)
      && (found < 0 ==> Resolve(text, env, anchor) == AddressOffset(Trim(text), env, anchor))
  {
  }

  /** Labels take precedence over addresses: once the label step finds an offset, it is
      the result and the address parser and the address map are never asked. */
  lemma LabelTakesPrecedence(text: string, env: Env, anchor: int)
    requires Trim(text) != [] && Trim(text)[0] != '+'
    requires LabelOffset(Trim(text), env, anchor) >= 0
    ensures Resolve(text, env, anchor) == LabelOffset(Trim(text), env, anchor)
    ensures forall q :: q in Queries(text, env, anchor) ==> !q.ParseAddress? && !q.AddressToOffset?
  {
    var lq := LabelQueries(Trim(text), env, anchor);
    assert Queries(text, env, anchor) == lq;
    assert forall q :: q in lq ==> q.ValidateLabel? || q.BestNonUniqueLabel? || q.LabelOffsetByName?;
  }

  /** The address step: a parse failure gives "none"; otherwise the isolation-respecting
      mapping wins when it finds an offset, and the isolation-breaking retry is asked
      exactly when it does not. */
  lemma AddressFallback(input: string, env: Env, anchor: int)
    ensures match env.syntax.parseAddress(input, MaxAddress)
      case None =>
        AddressOffset(input, env, anchor) == -1
        && AddressQueries(input, env, anchor) == [ParseAddress(input, MaxAddress)]
      case Some(addr) =>
        var first := env.project.addressToOffset(anchor, addr, false);
        var retry := env.project.addressToOffset(anchor, addr, true);
        (AddressToOffset(anchor, addr, true) in AddressQueries(input, env, anchor) <==> first < 0)
        && (first >= 0 ==> AddressOffset(input, env, anchor) == first)
        && (first < 0 && retry >= 0 ==> AddressOffset(input, env, anchor) == retry)
        && (first < 0 && retry < 0 ==> AddressOffset(input, env, anchor) == -1)
  {
  }

  /** The isolation-breaking retry is asked of the whole resolver only when the text is
      neither an offset literal nor a found label, parses as that address, and the
      isolation-respecting mapping failed. */
  lemma RetryOnlyAfterIsolatedMiss(text: string, env: Env, anchor: int, addr: int)
    ensures AddressToOffset(anchor, addr, true) in Queries(text, env, anchor) <==>
      Trim(text) != [] && Trim(text)[0] != '+'
      && LabelOffset(Trim(text), env, anchor) < 0
      && env.syntax.parseAddress(Trim(text), MaxAddress) == Some(addr)
      && env.project.addressToOffset(anchor, addr, false) < 0
  {
    var input := Trim(text);
    if input != [] && input[0] != '+' {
      var lq := LabelQueries(input, env, anchor);
      assert forall q :: q in lq ==> !q.AddressToOffset?;
      if LabelOffset(input, env, anchor) < 0 {
        assert Queries(text, env, anchor) == lq + AddressQueries(input, env, anchor);
        AddressFallback(input, env, anchor);
      } else {
        assert Queries(text, env, anchor) == lq;
      }
    }
  }

  /** A non-negative result is one of the collaborators' answers or a valid offset
      literal; nothing else can become the target. */
  lemma ResultHasASource(text: string, env: Env, anchor: int)
    requires Resolve(text, env, anchor) >= 0
    ensures var r := Resolve(text, env, anchor);
      var input := Trim(text);
      (input[0] == '+' && r < env.project.fileDataLength && ToInt32Hex(input[1..]) == Some(r))
      || (input[0] != '+' && r == LabelOffset(input, env, anchor))
      || (input[0] != '+' && exists addr, b ::
            env.syntax.parseAddress(input, MaxAddress) == Some(addr)
            && AddressToOffset(anchor, addr, b) in Queries(text, env, anchor)
            && r == env.project.addressToOffset(anchor, addr, b))
  {
    var input := Trim(text);
    if input[0] != '+' && LabelOffset(input, env, anchor) < 0 {
      var addr := env.syntax.parseAddress(input, MaxAddress).value;
      var first := env.project.addressToOffset(anchor, addr, false);
      var qs := Queries(text, env, anchor);
      var aq := AddressQueries(input, env, anchor);
      assert qs == LabelQueries(input, env, anchor) + aq;
      assert aq[1] in qs;
      if first < 0 {
        assert aq[2] in qs;
      }
    }
  }

  // ---------------------------------------------------------------------------
  // Display of the resolved target

  datatype DisplayStrings = DisplayStrings(offsetStr: string, addressStr: string, labelStr: string)

  /** The offset, address and label strings shown for `offset`; all empty for "none". */
  function Display(offset: int, env: Env): (d: DisplayStrings)
    ensures offset < 0 ==> d == DisplayStrings("", "", "")
    ensures d.addressStr == [] <==> offset < 0
  {
    if offset < 0 then DisplayStrings("", "", "")
    else
      var attr := env.project.getAnattrib(offset);
      DisplayStrings(
        env.formatter.formatOffset24(offset),
        "$" + env.formatter.formatAddress(attr.address, attr.address > 0xffff),
        match attr.symbol
        case None => ""
        case Some(sym) => env.formatter.displayLabel(sym))
  }

  /** For a valid offset: the address is shown `$`-prefixed and in the wide form exactly
      when it is above 16 bits, and the label string is empty when no symbol is defined
      there and is that symbol's display label otherwise. */
  lemma DisplayOfValidOffset(offset: int, env: Env)
    requires offset >= 0
    ensures var d := Display(offset, env);
      var attr := env.project.getAnattrib(offset);
      d.offsetStr == env.formatter.formatOffset24(offset)
      && d.addressStr[0] == '$'
      && (attr.address > 0xffff ==> d.addressStr[1..] == env.formatter.formatAddress(attr.address, true))
      && (attr.address <= 0xffff ==> d.addressStr[1..] == env.formatter.formatAddress(attr.address, false))
      && (attr.symbol.None? ==> d.labelStr == "")
      && (attr.symbol.Some? ==> d.labelStr == env.formatter.displayLabel(attr.symbol.value))
  {
  }

  /** Going to a unique label shows that label: when the project defines the label's
      symbol at the offset it reports for the name, the displayed label is the symbol's. */
  lemma LabelRoundTrip(text: string, env: Env, anchor: int, sym: Symbol)
    requires Trim(text) != [] && Trim(text)[0] != '+'
    requires var check := env.syntax.trimAndValidateLabel(Trim(text), env.formatter.nonUniqueLabelPrefix);
      check.isValid && !check.hasNonUniquePrefix && check.trimmed == sym.labelName
    requires env.project.findLabelOffsetByName(sym.labelName) >= 0
    requires env.project.getAnattrib(env.project.findLabelOffsetByName(sym.labelName)).symbol == Some(sym)
    ensures Resolve(text, env, anchor) == env.project.findLabelOffsetByName(sym.labelName)
    ensures Display(Resolve(text, env, anchor), env).labelStr == env.formatter.displayLabel(sym)
  {
  }

  // ---------------------------------------------------------------------------
  // The dialog's state

  class GotoBox {
    const env: Env
    /** The offset the dialog was opened at. */
    const initialOffset: int
    /** -1, or the resolved target. */
    var targetOffset: int
    /** Whether the "Go" button is enabled. */
    var isValid: bool
    var offsetValueStr: string
    var addressValueStr: string
    var labelValueStr: string
    /** The collaborator questions asked by the latest `ProcessInput`. */
    ghost var consulted: seq<Query>

    constructor (env: Env, initialOffset: int)
      ensures this.env == env && this.initialOffset == initialOffset
      ensures targetOffset == -1 && !isValid
      ensures offsetValueStr == "" && addressValueStr == "" && labelValueStr == ""
      ensures consulted == []
    {
      this.env := env;
      this.initialOffset := initialOffset;
      targetOffset := -1;
      isValid := false;
      offsetValueStr, addressValueStr, labelValueStr := "", "", "";
      consulted := [];
    }

    /** Resolves the text box's contents, `text`, into `targetOffset`. The target is
        reset to -1 and overwritten only by a successful interpretation; the fields are
        written once, when the outcome is known. */
    method ProcessInput(text: string)
      modifies this`targetOffset, this`consulted
      ensures targetOffset == Resolve(text, env, initialOffset)
      ensures consulted == Queries(text, env, initialOffset)
    {
      var target := -1;
      ghost var queries := [];

      var input := Trim(text);
      if input == [] {
        // nothing to resolve
      } else if input[0] == '+' {
        // the offset literal, and no other interpretation
        var offset := ToInt32Hex(input[1..]);
        if offset.Some? && offset.value >= 0 {
          queries := [DataLength];
          if offset.value < env.project.fileDataLength {
            target := offset.value;
          }
        }
        assert queries == OffsetQueries(input[1..]);
        assert target == OffsetLiteral(input[1..], env.project.fileDataLength);
      } else {
        // try it as a label
        var labelOffset := -1;
        queries := [ValidateLabel(input)];
        var check := env.syntax.trimAndValidateLabel(input, env.formatter.nonUniqueLabelPrefix);
        if check.isValid {
          if check.hasNonUniquePrefix {
            queries := queries + [BestNonUniqueLabel(check.trimmed, initialOffset)];
            var sym := env.project.findBestNonUniqueLabel(check.trimmed, initialOffset);
            if sym.Some? {
              queries := queries + [LabelOffsetByName(sym.value.labelName)];
              labelOffset := env.project.findLabelOffsetByName(sym.value.labelName);
            }
          } else {
            queries := queries + [LabelOffsetByName(check.trimmed)];
            labelOffset := env.project.findLabelOffsetByName(check.trimmed);
          }
        }
        assert queries == LabelQueries(input, env, initialOffset);
        assert labelOffset == LabelOffset(input, env, initialOffset);

        if labelOffset >= 0 {
          target := labelOffset;
        } else {
          // then as an address, retrying once with region isolation ignored
          ghost var addressQueries := [ParseAddress(input, MaxAddress)];
          var addr := env.syntax.parseAddress(input, MaxAddress);
          if addr.Some? {
            addressQueries := addressQueries + [AddressToOffset(initialOffset, addr.value, false)];
            var offset := env.project.addressToOffset(initialOffset, addr.value, false);
            if offset < 0 {
              addressQueries := addressQueries + [AddressToOffset(initialOffset, addr.value, true)];
              offset := env.project.addressToOffset(initialOffset, addr.value, true);
            }
            if offset >= 0 {
              target := offset;
            }
          }
          assert addressQueries == AddressQueries(input, env, initialOffset);
          assert target == AddressOffset(input, env, initialOffset);
          queries := queries + addressQueries;
        }
      }

      targetOffset := target;
      consulted := queries;
    }

    /** Derives the three display strings from `targetOffset`. */
    method UpdateDisplay()
      modifies this`offsetValueStr, this`addressValueStr, this`labelValueStr
      ensures DisplayStrings(offsetValueStr, addressValueStr, labelValueStr) == Display(targetOffset, env)
    {
      var offsetStr := "";
      var addressStr := "";
      var labelStr := "";

      if targetOffset >= 0 {
        offsetStr := env.formatter.formatOffset24(targetOffset);
        var addr := env.project.getAnattrib(targetOffset).address;
        addressStr := "$" + env.formatter.formatAddress(addr, addr > 0xffff);
        var sym := env.project.getAnattrib(targetOffset).symbol;
        if sym.Some? {
          labelStr := env.formatter.displayLabel(sym.value);
        }
      }

      offsetValueStr := offsetStr;
      addressValueStr := addressStr;
      labelValueStr := labelStr;
    }

    /** The text box changed to `newText`: re-resolve, redisplay, and enable "Go"
        exactly when there is a target. */
    method TextChanged(newText: string)
      modifies this
      ensures targetOffset == Resolve(newText, env, initialOffset)
      ensures consulted == Queries(newText, env, initialOffset)
      ensures DisplayStrings(offsetValueStr, addressValueStr, labelValueStr) == Display(targetOffset, env)
      ensures isValid == (targetOffset >= 0)
      ensures isValid <==> addressValueStr != ""
    {
      ProcessInput(newText);
      UpdateDisplay();
      isValid := targetOffset >= 0;
    }
  }
}
