// BIP-342's leaf rules as a mint applies them (src/spend.rs): the byte walk
// `check_leaf` makes, and the instruction list it stands for.

module Tapscript {
  import opened Wrappers
  import opened Bytes
  import opened Taproot

  predicate IsOpSuccess(op: int) {
    op == 80 || op == 98 || 126 <= op <= 129 || 131 <= op <= 134 || op == 137 || op == 138
    || op == 141 || op == 142 || 149 <= op <= 153 || 187 <= op <= 254
  }

  /** Every other opcode BIP-342 leaves its meaning, pushes and disabled
      opcodes among them. */
  lemma OpSuccessIsTheRest(op: byte)
    ensures IsOpSuccess(op) <==>
            !(op <= 79 || 81 <= op <= 97 || 99 <= op <= 125 || op == 130 || op == 135 || op == 136 || op == 139
              || op == 140 || 143 <= op <= 148 || 154 <= op <= 186 || op == 255)
  {
  }

  datatype Refusal = UnknownVersion | ReservedOpcode

  // ---- instructions ----

  predicate IsPushOpcode(op: int) {
    1 <= op <= 75 || 0x4c <= op <= 0x4e
  }

  datatype Instruction =
    | Op(op: byte)
    | PushShort(data: bytes)
    | PushData1(data: bytes)
    | PushData2(data: bytes)
    | PushData4(data: bytes)

  predicate WellFormed(i: Instruction) {
    match i
    case Op(op) => !IsPushOpcode(op)
    case PushShort(data) => 1 <= |data| <= 75
    case PushData1(data) => |data| <= 0xff
    case PushData2(data) => |data| <= 0xffff
    case PushData4(data) => |data| <= 0xffff_ffff
  }

  function Serialize(i: Instruction): (s: bytes)
    requires WellFormed(i)
    ensures s != []
  {
    match i
    case Op(op) => [op]
    case PushShort(data) => [|data|] + data
    case PushData1(data) => [0x4c] + (LittleEndian(|data|, 1) + data)
    case PushData2(data) => [0x4d] + (LittleEndian(|data|, 2) + data)
    case PushData4(data) => [0x4e] + (LittleEndian(|data|, 4) + data)
  }

  /** The four ways script pushes data, byte by byte. */
  lemma ShortPushesInBytes(data: bytes)
    ensures 1 <= |data| <= 75 ==> Serialize(PushShort(data)) == [|data|] + data
    ensures |data| <= 0xff ==> Serialize(PushData1(data)) == [76, |data|] + data
  {
    if |data| <= 0xff {
      assert LittleEndian(|data|, 1) == [|data|];
      assert [0x4c] + ([|data|] + data) == [76, |data|] + data;
    }
  }

  lemma PushData2InBytes(data: bytes)
    requires |data| <= 0xffff
    ensures var s := Serialize(PushData2(data));
            s[0] == 77 && |s| == 3 + |data| && s[1] as int + 0x100 * s[2] as int == |data| && s[3..] == data
  {
    hide LittleEndian;
    var length := LittleEndian(|data|, 2);
    assert Serialize(PushData2(data)) == [0x4d] + length + data;
    hide Serialize;
    Pow256Values();
    LengthInBytes(|data|, 2);
    ThreeSlices([0x4d], length, data);
  }

  lemma PushData4InBytes(data: bytes)
    requires |data| <= 0xffff_ffff
    ensures var s := Serialize(PushData4(data));
            && s[0] == 78 && |s| == 5 + |data| && s[5..] == data
            && s[1] as int + 0x100 * s[2] as int + 0x1_0000 * s[3] as int + 0x100_0000 * s[4] as int == |data|
  {
    hide LittleEndian;
    var length := LittleEndian(|data|, 4);
    assert Serialize(PushData4(data)) == [0x4e] + length + data;
    hide Serialize;
    Pow256Values();
    LengthInBytes(|data|, 4);
    ThreeSlices([0x4e], length, data);
  }

  lemma LengthInBytes(n: nat, width: nat)
    requires (width == 2 || width == 4) && n < Pow256(width)
    ensures var s := LittleEndian(n, width);
            && (width == 2 ==> s[0] as int + 0x100 * s[1] as int == n)
            && (width == 4 ==>
                  s[0] as int + 0x100 * s[1] as int + 0x1_0000 * s[2] as int + 0x100_0000 * s[3] as int == n)
  {
    LittleEndianRoundTrip(n, width);
    LittleEndianWeights(LittleEndian(n, width));
    hide LittleEndian, FromLittleEndian;
  }

  predicate AllWellFormed(code: seq<Instruction>) {
    forall i | 0 <= i < |code| :: WellFormed(code[i])
  }

  function SerializeAll(code: seq<Instruction>): bytes
    requires AllWellFormed(code)
  {
    if code == [] then [] else Serialize(code[0]) + SerializeAll(code[1..])
  }

  lemma SerializeCons(i: Instruction, rest: seq<Instruction>)
    requires WellFormed(i) && AllWellFormed(rest)
    ensures AllWellFormed([i] + rest) && SerializeAll([i] + rest) == Serialize(i) + SerializeAll(rest)
  {
    assert ([i] + rest)[1..] == rest;
  }

  /** Some opcode outside pushed data is reserved. */
  predicate UsesOpSuccess(code: seq<Instruction>) {
    exists i | 0 <= i < |code| :: code[i].Op? && IsOpSuccess(code[i].op)
  }

  // ---- the byte walk ----

  /** The width of a push opcode's length field. */
  function LengthWidth(op: int): nat {
    if op == 0x4c then 1 else if op == 0x4d then 2 else if op == 0x4e then 4 else 0
  }

  /** How many bytes follow `op` before the next opcode; none when the length
      field itself is cut short. */
  function Skip(op: byte, rest: bytes): Option<nat> {
    var width := LengthWidth(op);
    if 1 <= op <= 75 then Some(op)
    else if |rest| < width then None
    else Some(width + FromLittleEndian(rest[..width]))
  }

  /** Whether the walk meets a reserved opcode in what is left of a script. */
  predicate WalkRefuses(script: bytes) {
    script != [] &&
    (IsOpSuccess(script[0])
     || (var skip := Skip(script[0], script[1..]);
         skip.Some? && 1 + skip.value <= |script| && WalkRefuses(script[1 + skip.value..])))
  }

  function CheckLeaf(leafVersion: byte, script: bytes): Option<Refusal> {
    if leafVersion - leafVersion % 2 != TAPLEAF_VERSION then Some(UnknownVersion)
    else if WalkRefuses(script) then Some(ReservedOpcode)
    else None
  }

  /** `check_leaf`, advancing an index. */
  method CheckLeafBytes(leafVersion: byte, script: bytes) returns (refusal: Option<Refusal>)
    ensures refusal == CheckLeaf(leafVersion, script)
  {
    if leafVersion - leafVersion % 2 != TAPLEAF_VERSION {
      return Some(UnknownVersion);
    }
    var i := 0;
    while i < |script|
      invariant i <= |script| ==> WalkRefuses(script) == WalkRefuses(script[i..])
      invariant i > |script| ==> !WalkRefuses(script)
      decreases |script| - i
    {
      ghost var left := script[i..];
      var op := script[i];
      i := i + 1;
      assert left[1..] == script[i..];
      if IsOpSuccess(op) {
        return Some(ReservedOpcode);
      }
      var skip := Skip(op, script[i..]);
      if skip.None? {
        return None;
      }
      i := i + skip.value;
      if i <= |script| {
        assert script[i..] == left[1 + skip.value..];
      }
    }
    return None;
  }

  // ---- the walk reads instructions ----

  lemma SkipOfLength(op: byte, field: bytes, data: bytes, rest: bytes)
    requires 0 < |field| == LengthWidth(op) && FromLittleEndian(field) == |data|
    ensures Skip(op, field + data + rest) == Some(|field| + |data|)
  {
    hide FromLittleEndian;
    var s := field + data + rest;
    assert s[..|field|] == field;
  }

  lemma WalkOverBytes(op: byte, body: bytes, rest: bytes)
    requires !IsOpSuccess(op) && Skip(op, body + rest) == Some(|body|)
    ensures WalkRefuses([op] + body + rest) <==> WalkRefuses(rest)
  {
    var s := [op] + body + rest;
    assert s[1..] == body + rest;
    assert s[1 + |body|..] == rest;
  }

  lemma WalkOverInstruction(i: Instruction, rest: bytes)
    requires WellFormed(i)
    ensures WalkRefuses(Serialize(i) + rest) <==> (i.Op? && IsOpSuccess(i.op)) || WalkRefuses(rest)
  {
    var op, body := Serialize(i)[0], Serialize(i)[1..];
    assert Serialize(i) == [op] + body;
    if i.Op? {
      if !IsOpSuccess(op) {
        assert Skip(op, body + rest) == Some(0);
        WalkOverBytes(op, body, rest);
      }
    } else {
      if !i.PushShort? {
        Pow256Values();
        assert Pow256(1) == 256;
        var field := LittleEndian(|i.data|, LengthWidth(op));
        assert body == field + i.data;
        LittleEndianRoundTrip(|i.data|, LengthWidth(op));
        SkipOfLength(op, field, i.data, rest);
      }
      WalkOverBytes(op, body, rest);
    }
  }

  /** A final push whose length field or data is cut short. */
  predicate TruncatedPush(tail: bytes) {
    tail != [] && IsPushOpcode(tail[0])
    && var skip := Skip(tail[0], tail[1..]);
       skip.None? || 1 + skip.value > |tail|
  }

  lemma UsesOpSuccessStep(code: seq<Instruction>)
    requires code != []
    ensures UsesOpSuccess(code) <==> (code[0].Op? && IsOpSuccess(code[0].op)) || UsesOpSuccess(code[1..])
  {
    assert forall k | 0 < k < |code| :: code[k] == code[1..][k - 1];
  }

  lemma {:induction false} WalkReadsInstructions(code: seq<Instruction>, tail: bytes)
    requires AllWellFormed(code) && (tail == [] || TruncatedPush(tail))
    ensures WalkRefuses(SerializeAll(code) + tail) <==> UsesOpSuccess(code)
  {
    if code == [] {
      assert [] + tail == tail;
    } else {
      var rest := SerializeAll(code[1..]) + tail;
      WalkReadsInstructions(code[1..], tail);
      WalkOverInstruction(code[0], rest);
      assert SerializeAll(code) + tail == Serialize(code[0]) + rest;
      UsesOpSuccessStep(code);
    }
  }

  /** The walk refuses a serialised list exactly when it uses OP_SUCCESSx,
      whatever the pushed data holds, and a truncated push after it changes
      nothing. */
  lemma CheckLeafReadsInstructions(code: seq<Instruction>, tail: bytes)
    requires AllWellFormed(code) && (tail == [] || TruncatedPush(tail))
    ensures CheckLeaf(TAPLEAF_VERSION, SerializeAll(code) + tail) ==
            if UsesOpSuccess(code) then Some(ReservedOpcode) else None
  {
    WalkReadsInstructions(code, tail);
  }

  lemma Pieces(script: bytes, width: nat, len: nat)
    requires 1 + width + len <= |script|
    ensures script
        == [script[0]] + (script[1..][..width] + script[1 + width..1 + width + len]) + script[1 + width + len..]
  {
    assert script[1..][..width] == script[1..1 + width];
    assert script[1..1 + width] + script[1 + width..1 + width + len] == script[1..1 + width + len];
  }

  lemma FirstInstruction(script: bytes) returns (i: Instruction, rest: bytes)
    requires script != [] && !TruncatedPush(script)
    ensures WellFormed(i) && script == Serialize(i) + rest
  {
    var op, width := script[0], LengthWidth(script[0]);
    if !IsPushOpcode(op) {
      i, rest := Op(op), script[1..];
      assert script == [op] + rest;
    } else if op <= 75 {
      i, rest := PushShort(script[1..1 + op]), script[1 + op..];
      Pieces(script, 0, op);
      assert [] + script[1..1 + op] == script[1..1 + op];
    } else {
      i, rest := LongPush(script, width);
    }
  }

  lemma LongPush(script: bytes, width: nat) returns (i: Instruction, rest: bytes)
    requires script != [] && 0 < width == LengthWidth(script[0])
    requires 1 + width <= |script| && 1 + width + FromLittleEndian(script[1..][..width]) <= |script|
    ensures WellFormed(i) && script == Serialize(i) + rest
  {
    Pow256Values();
    assert Pow256(1) == 256;
    hide FromLittleEndian, LittleEndian, Pow256;
    var op, field := script[0], script[1..][..width];
    var len := FromLittleEndian(field);
    LittleEndianOfValue(field);
    Pieces(script, width, len);
    var data := script[1 + width..1 + width + len];
    i := match op case 0x4c => PushData1(data) case 0x4d => PushData2(data) case _ => PushData4(data);
    rest := script[1 + width + len..];
  }

  /** Every script is an instruction list, then nothing or one truncated
      push, so `CheckLeafReadsInstructions` speaks of every script. */
  lemma {:induction false} EveryScriptParses(script: bytes) returns (code: seq<Instruction>, tail: bytes)
    ensures AllWellFormed(code) && (tail == [] || TruncatedPush(tail))
    ensures script == SerializeAll(code) + tail
    decreases |script|
  {
    if script == [] || TruncatedPush(script) {
      code, tail := [], script;
    } else {
      var i, rest := FirstInstruction(script);
      var code', tail' := EveryScriptParses(rest);
      code, tail := [i] + code', tail';
      assert code[1..] == code';
      assert script == Serialize(i) + SerializeAll(code') + tail';
    }
  }

  /** The whole rule: under 0xc0 a script is refused exactly when the
      instructions it holds use OP_SUCCESSx, and under any other version always. */
  lemma CheckLeafIff(leafVersion: byte, script: bytes) returns (code: seq<Instruction>, tail: bytes)
    ensures AllWellFormed(code) && (tail == [] || TruncatedPush(tail)) && script == SerializeAll(code) + tail
    ensures CheckLeaf(leafVersion, script).Some? <==>
        leafVersion - leafVersion % 2 != TAPLEAF_VERSION || UsesOpSuccess(code)
  {
    code, tail := EveryScriptParses(script);
    CheckLeafReadsInstructions(code, tail);
  }
}
