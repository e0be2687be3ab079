/*
 * One cell of a mathematical function's chain (include/qpl/maths.hpp:99-177):
 * a numeric payload and a 32-bit info word packing the operator (bits 0-3),
 * the sign prefix (bits 4-5), the link flag (bit 6) and the variable flag (bit 7).
 *
 * `Record` is the cell as a value (the chain and its working copy hold cells by
 * value); `NumberOperation` is the same cell as a mutable object whose setters
 * rewrite the packed info word in place.
 */
module NumberOperations {

  /** mathematical_operation: the operator applied between a cell and the next one. */
  datatype Operation = None | Add | Sub | Mul | Div | Pow

  /** mathematical_prefix: the sign applied to a resolved operand. */
  datatype Prefix = NoPrefix | Positive | Negated

  /** A cell as a value; `isLink` and `isVariable` are the two independent flag bits. */
  datatype Record = Record(number: real, op: Operation, prefix: Prefix, isLink: bool, isVariable: bool)

  /** What the evaluator reads a cell as. The link flag is tested before the variable flag. */
  datatype Kind = Literal | Link(index: int) | Variable(index: int)

  /** C++ conversion of a floating value to an integer: truncation toward zero. */
  function TruncateToInt(x: real): (k: int)
    ensures x >= 0.0 ==> k >= 0 && k as real <= x < k as real + 1.0
    ensures x < 0.0 ==> k <= 0 && k as real - 1.0 < x <= k as real
  {
    if x >= 0.0 then x.Floor else -((-x).Floor)
  }

  /** get_link and get_variable both read the index out of `number`. */
  function Index(r: Record): int
  {
    TruncateToInt(r.number)
  }

  function KindOf(r: Record): (k: Kind)
    ensures k.Literal? <==> !r.isLink && !r.isVariable
    ensures k.Link? <==> r.isLink
  {
    if r.isLink then Link(Index(r))
    else if r.isVariable then Variable(Index(r))
    else Literal
  }

  /* ---------------------------------------------------------------------------
   * The packed info word.
   * ------------------------------------------------------------------------- */

  const OperationField: bv32 := 0x0F
  const PrefixField: bv32 := 0x30
  const LinkFlag: bv32 := 0x40
  const VariableFlag: bv32 := 0x80
  /** Bits 8-31: never written by a setter. */
  const UnusedBits: bv32 := 0xFFFF_FF00

  function OperationBits(info: bv32): bv32 { info & OperationField }
  function PrefixBits(info: bv32): bv32 { (info & PrefixField) >> 4 }
  function HasLinkFlag(info: bv32): bool { info & LinkFlag != 0 }
  function HasVariableFlag(info: bv32): bool { info & VariableFlag != 0 }

  /** Both enum fields hold one of their enumerators. */
  predicate WellFormedInfo(info: bv32)
  {
    OperationBits(info) <= 5 && PrefixBits(info) <= 2
  }

  function DecodeOperation(code: bv32): Operation
    requires code <= 5
  {
    if code == 0 then None
    else if code == 1 then Add
    else if code == 2 then Sub
    else if code == 3 then Mul
    else if code == 4 then Div
    else Pow
  }

  /** The enumerator's value as u64_cast gives it; decoding it gives the operator back. */
  function OperationCode(op: Operation): (code: bv32)
    ensures code <= 5 && DecodeOperation(code) == op
  {
    match op
    case None => 0
    case Add => 1
    case Sub => 2
    case Mul => 3
    case Div => 4
    case Pow => 5
  }

  function DecodePrefix(code: bv32): Prefix
    requires code <= 2
  {
    if code == 0 then NoPrefix
    else if code == 1 then Positive
    else Negated
  }

  function PrefixCode(p: Prefix): (code: bv32)
    ensures code <= 2 && DecodePrefix(code) == p
  {
    match p
    case NoPrefix => 0
    case Positive => 1
    case Negated => 2
  }

  /** info[{0, 3}] = op: bits 0-3 take the operator, every bit outside them is kept. */
  function WithOperation(info: bv32, op: Operation): (r: bv32)
    ensures OperationBits(r) == OperationCode(op)
    ensures r & !OperationField == info & !OperationField
  {
    (info & !OperationField) | OperationCode(op)
  }

  /** Writing a code of at most four bits into bits 0-3 keeps bits 4-7. */
  lemma OutsideOperation(info: bv32, code: bv32)
    requires code <= 15
    ensures ((info & !OperationField) | code) & 0xF0 == info & 0xF0
  {
  }

  /** Two words that agree on bits 4-7 have the same prefix field and flags. */
  lemma SameHighNibble(r: bv32, info: bv32)
    requires r & 0xF0 == info & 0xF0
    ensures PrefixBits(r) == PrefixBits(info)
    ensures HasLinkFlag(r) == HasLinkFlag(info) && HasVariableFlag(r) == HasVariableFlag(info)
  {
    assert r & PrefixField == (r & 0xF0) & PrefixField;
    assert info & PrefixField == (info & 0xF0) & PrefixField;
    assert r & LinkFlag == (r & 0xF0) & LinkFlag;
    assert info & LinkFlag == (info & 0xF0) & LinkFlag;
    assert r & VariableFlag == (r & 0xF0) & VariableFlag;
    assert info & VariableFlag == (info & 0xF0) & VariableFlag;
  }

  /** Writing the operator field leaves the prefix field and both flags as they were. */
  lemma WithOperationKeepsFields(info: bv32, op: Operation)
    ensures PrefixBits(WithOperation(info, op)) == PrefixBits(info)
    ensures HasLinkFlag(WithOperation(info, op)) == HasLinkFlag(info)
    ensures HasVariableFlag(WithOperation(info, op)) == HasVariableFlag(info)
  {
    OutsideOperation(info, OperationCode(op));
    SameHighNibble(WithOperation(info, op), info);
  }

  /** info[{4, 5}] = prefix: bits 4-5 take the prefix, every bit outside them is kept. */
  function WithPrefix(info: bv32, p: Prefix): (r: bv32)
    ensures PrefixBits(r) == PrefixCode(p)
    ensures r & !PrefixField == info & !PrefixField
  {
    (info & !PrefixField) | (PrefixCode(p) << 4)
  }

  /** Writing a two-bit code into bits 4-5 keeps bits 0-3, 6 and 7. */
  lemma OutsidePrefix(info: bv32, code: bv32)
    requires code <= 3
    ensures ((info & !PrefixField) | (code << 4)) & 0xCF == info & 0xCF
  {
  }

  /** Two words that agree on bits 0-3, 6 and 7 have the same operator field and flags. */
  lemma SameOutsidePrefix(r: bv32, info: bv32)
    requires r & 0xCF == info & 0xCF
    ensures OperationBits(r) == OperationBits(info)
    ensures HasLinkFlag(r) == HasLinkFlag(info) && HasVariableFlag(r) == HasVariableFlag(info)
  {
    assert r & OperationField == (r & 0xCF) & OperationField;
    assert info & OperationField == (info & 0xCF) & OperationField;
    assert r & LinkFlag == (r & 0xCF) & LinkFlag;
    assert info & LinkFlag == (info & 0xCF) & LinkFlag;
    assert r & VariableFlag == (r & 0xCF) & VariableFlag;
    assert info & VariableFlag == (info & 0xCF) & VariableFlag;
  }

  /** Writing the prefix field leaves the operator field and both flags as they were. */
  lemma WithPrefixKeepsFields(info: bv32, p: Prefix)
    ensures OperationBits(WithPrefix(info, p)) == OperationBits(info)
    ensures HasLinkFlag(WithPrefix(info, p)) == HasLinkFlag(info)
    ensures HasVariableFlag(WithPrefix(info, p)) == HasVariableFlag(info)
  {
    OutsidePrefix(info, PrefixCode(p));
    SameOutsidePrefix(WithPrefix(info, p), info);
  }

  /** info[6] = true: the link flag is raised, every other bit is kept. */
  function WithLinkFlag(info: bv32): (r: bv32)
    ensures HasLinkFlag(r)
    ensures r & !LinkFlag == info & !LinkFlag
  {
    info | LinkFlag
  }

  /** info[7] = true: the variable flag is raised, every other bit is kept. */
  function WithVariableFlag(info: bv32): (r: bv32)
    ensures HasVariableFlag(r)
    ensures r & !VariableFlag == info & !VariableFlag
  {
    info | VariableFlag
  }

  /** The cell a packed word and a payload stand for. */
  function Unpack(number: real, info: bv32): Record
    requires WellFormedInfo(info)
  {
    Record(number, DecodeOperation(OperationBits(info)), DecodePrefix(PrefixBits(info)),
           HasLinkFlag(info), HasVariableFlag(info))
  }

  /** The packed word of a cell: the inverse of `Unpack` on its fields. */
  function Pack(r: Record): (info: bv32)
    ensures WellFormedInfo(info) && Unpack(r.number, info) == r
    ensures info & UnusedBits == 0
  {
    var flags: bv32 := (if r.isLink then LinkFlag else 0) | (if r.isVariable then VariableFlag else 0);
    OperationCode(r.op) | (PrefixCode(r.prefix) << 4) | flags
  }

  /* ---------------------------------------------------------------------------
   * Rendering (number_operation::string).
   * ------------------------------------------------------------------------- */

  function DigitChar(d: nat): (c: char)
    requires d < 10
    ensures '0' <= c <= '9' && c as int - '0' as int == d
  {
    ('0' as int + d) as char
  }

  predicate AllDigits(s: string)
  {
    forall i :: 0 <= i < |s| ==> '0' <= s[i] <= '9'
  }

  /** Decimal text of an unsigned index, as a stream prints it: no sign, no leading zero. */
  function Decimal(n: nat): (s: string)
    ensures |s| >= 1 && AllDigits(s)
    ensures s[0] == '0' <==> n == 0
    ensures n < 10 <==> |s| == 1
  {
    if n < 10 then [DigitChar(n)] else Decimal(n / 10) + [DigitChar(n % 10)]
  }

  /** Reads decimal digits back into a number. */
  function ParseDecimal(s: string): nat
    requires AllDigits(s)
  {
    if s == [] then 0 else ParseDecimal(s[..|s| - 1]) * 10 + (s[|s| - 1] as int - '0' as int)
  }

  lemma {:induction false} DecimalRoundTrip(n: nat)
    ensures ParseDecimal(Decimal(n)) == n
  {
    if n >= 10 {
      DecimalRoundTrip(n / 10);
      var s := Decimal(n);
      assert s[..|s| - 1] == Decimal(n / 10);
    }
  }

  function SignText(p: Prefix): string
  {
    match p
    case Negated => "-"
    case Positive => "+"
    case NoPrefix => ""
  }

  /** get_link/get_variable are u32 conversions: defined for payloads in (-1, 2^32). */
  predicate IndexRepresentable(r: Record)
  {
    (r.isLink || r.isVariable) ==> -1.0 < r.number < 4294967296.0
  }

  /**
   * `<sign><token>` followed by ` <operator name>` unless the operator is none.
   * The token is `#k` for a link, `vk` for a variable, else the streamed number.
   * Number formatting and operator names are supplied by the caller.
   */
  function RecordString(r: Record, showNumber: real -> string, opName: Operation -> string): (s: string)
    requires IndexRepresentable(r)
    ensures |s| >= |SignText(r.prefix)| && s[..|SignText(r.prefix)|] == SignText(r.prefix)
    ensures r.isLink ==> |s| > |SignText(r.prefix)| + 1 && s[|SignText(r.prefix)|] == '#'
    ensures !r.isLink && r.isVariable ==> |s| > |SignText(r.prefix)| + 1 && s[|SignText(r.prefix)|] == 'v'
    ensures r.op != None ==> |s| > |opName(r.op)| && s[|s| - |opName(r.op)| - 1..] == " " + opName(r.op)
    // Nothing follows the token when the operator is none, and only " <name>" otherwise.
    ensures var tail := if r.op == None then 0 else 1 + |opName(r.op)|;
            (r.isLink || r.isVariable ==> Index(r) >= 0 && |s| == |SignText(r.prefix)| + 1 + |Decimal(Index(r))| + tail) &&
            (!r.isLink && !r.isVariable ==> |s| == |SignText(r.prefix)| + |showNumber(r.number)| + tail)
    // A literal prints its number right after the sign.
    ensures !r.isLink && !r.isVariable ==>
              |s| >= |SignText(r.prefix)| + |showNumber(r.number)| &&
              s[|SignText(r.prefix)|..|SignText(r.prefix)| + |showNumber(r.number)|] == showNumber(r.number)
  {
    var token := match KindOf(r)
      case Link(k) => "#" + Decimal(k)
      case Variable(k) => "v" + Decimal(k)
      case Literal => showNumber(r.number);
    var sign := SignText(r.prefix);
    var suffix := if r.op == None then "" else " " + opName(r.op);
    assert (sign + token + suffix)[..|sign|] == sign;
    sign + token + suffix
  }

  lemma MiddleOfThree(a: string, b: string, c: string)
    ensures (a + b + c)[|a|..|a| + |b|] == b
  {
    assert forall k :: 0 <= k < |b| ==> (a + b + c)[|a| + k] == b[k];
  }

  lemma Regroup(a: string, b: string, c: string, d: string)
    ensures a + (b + c) + d == (a + b) + c + d
  {
  }

  /** The digits printed after `#` (or `v`) read back as the cell's index. */
  lemma IndexTextRoundTrip(r: Record, showNumber: real -> string, opName: Operation -> string)
    requires IndexRepresentable(r) && (r.isLink || r.isVariable)
    ensures Index(r) >= 0
    ensures var s := RecordString(r, showNumber, opName);
            var from := |SignText(r.prefix)| + 1;
            var digits := Decimal(Index(r));
            from + |digits| <= |s| && s[from..from + |digits|] == digits &&
            ParseDecimal(s[from..from + |digits|]) == Index(r)
  {
    var s := RecordString(r, showNumber, opName);
    var sign := SignText(r.prefix);
    var digits := Decimal(Index(r));
    var suffix := if r.op == None then "" else " " + opName(r.op);
    var marker := if r.isLink then "#" else "v";
    assert s == sign + (marker + digits) + suffix;
    Regroup(sign, marker, digits, suffix);
    MiddleOfThree(sign + marker, digits, suffix);
    DecimalRoundTrip(Index(r));
  }

  /* ---------------------------------------------------------------------------
   * The mutable cell.
   * ------------------------------------------------------------------------- */

  class NumberOperation {
    var number: real
    var info: bv32

    ghost predicate Valid()
      reads this
    {
      WellFormedInfo(info)
    }

    /** A fresh cell: every info bit clear; the payload is left indeterminate. */
    constructor ()
      ensures Valid() && info == 0
      ensures View().op == None && View().prefix == NoPrefix && !View().isLink && !View().isVariable
    {
      info := 0;
    }

    function View(): Record
      reads this
      requires Valid()
    {
      Unpack(number, info)
    }

    function GetOperation(): Operation
      reads this
      requires Valid()
    {
      DecodeOperation(OperationBits(info))
    }

    function GetPrefix(): Prefix
      reads this
      requires Valid()
    {
      DecodePrefix(PrefixBits(info))
    }

    function IsLink(): bool
      reads this
    {
      HasLinkFlag(info)
    }

    function GetLink(): int
      reads this
    {
      TruncateToInt(number)
    }

    function IsVariable(): bool
      reads this
    {
      HasVariableFlag(info)
    }

    function GetVariable(): int
      reads this
    {
      TruncateToInt(number)
    }

    method SetOperation(op: Operation)
      requires Valid()
      modifies this
      ensures Valid() && info == WithOperation(old(info), op)
      ensures GetOperation() == op
      ensures View() == old(View()).(op := op)
    {
      WithOperationKeepsFields(info, op);
      info := WithOperation(info, op);
    }

    method SetPrefix(p: Prefix)
      requires Valid()
      modifies this
      ensures Valid() && info == WithPrefix(old(info), p)
      ensures GetPrefix() == p
      ensures View() == old(View()).(prefix := p)
    {
      WithPrefixKeepsFields(info, p);
      info := WithPrefix(info, p);
    }

    /** Marks the cell as a link to `link` and stores the index as its payload. */
    method SetLink(link: nat)
      requires Valid() && link < 0x1_0000_0000
      modifies this
      ensures Valid() && info == WithLinkFlag(old(info))
      ensures IsLink() && GetLink() == link
      ensures View() == old(View()).(number := link as real, isLink := true)
    {
      info := WithLinkFlag(info);
      number := link as real;
    }

    /** Marks the cell as variable slot `index` and stores the index as its payload. */
    method SetVariable(index: nat)
      requires Valid() && index < 0x1_0000_0000
      modifies this
      ensures Valid() && info == WithVariableFlag(old(info))
      ensures IsVariable() && GetVariable() == index
      ensures View() == old(View()).(number := index as real, isVariable := true)
    {
      info := WithVariableFlag(info);
      number := index as real;
    }

    /** Every info bit cleared and the payload set to 0. */
    method Clear()
      modifies this
      ensures Valid() && info == 0
      ensures View() == Record(0.0, None, NoPrefix, false, false)
    {
      info := 0;
      number := 0.0;
    }

    function String(showNumber: real -> string, opName: Operation -> string): string
      reads this
      requires Valid() && IndexRepresentable(View())
    {
      RecordString(View(), showNumber, opName)
    }
  }
}
