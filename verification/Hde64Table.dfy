/** The opcode tables of table64.h, and what is true of them. */
module Hde64Table {

  type Byte = b: int | 0 <= b < 0x100

  const SIZE: nat := 529

  /** Entry `k` of a line of the table. */
  function Pick(k: int, b0: Byte, b1: Byte, b2: Byte, b3: Byte, b4: Byte, b5: Byte, b6: Byte, b7: Byte,
                b8: Byte, b9: Byte, b10: Byte, b11: Byte, b12: Byte, b13: Byte, b14: Byte): (b: Byte)
  {
    if k == 0 then b0 else if k == 1 then b1 else if k == 2 then b2 else if k == 3 then b3
    else if k == 4 then b4 else if k == 5 then b5 else if k == 6 then b6 else if k == 7 then b7
    else if k == 8 then b8 else if k == 9 then b9 else if k == 10 then b10 else if k == 11 then b11
    else if k == 12 then b12 else if k == 13 then b13 else b14
  }

  /** hde64_table, line by line. */
  function Table(i: nat): (b: Byte)
    requires i < SIZE
  {
    if i < 15 then Pick(i - 0, 0xa5, 0xaa, 0xa5, 0xb8, 0xa5, 0xaa, 0xa5, 0xaa, 0xa5, 0xb8, 0xa5, 0xb8, 0xa5, 0xb8, 0xa5)
    else if i < 30 then Pick(i - 15, 0xb8, 0xc0, 0xc0, 0xc0, 0xc0, 0xc0, 0xc0, 0xc0, 0xc0, 0xac, 0xc0, 0xcc, 0xc0, 0xa1, 0xa1)
    else if i < 45 then Pick(i - 30, 0xa1, 0xa1, 0xb1, 0xa5, 0xa5, 0xa6, 0xc0, 0xc0, 0xd7, 0xda, 0xe0, 0xc0, 0xe4, 0xc0, 0xea)
    else if i < 60 then Pick(i - 45, 0xea, 0xe0, 0xe0, 0x98, 0xc8, 0xee, 0xf1, 0xa5, 0xd3, 0xa5, 0xa5, 0xa1, 0xea, 0x9e, 0xc0)
    else if i < 75 then Pick(i - 60, 0xc0, 0xc2, 0xc0, 0xe6, 0x03, 0x7f, 0x11, 0x7f, 0x01, 0x7f, 0x01, 0x3f, 0x01, 0x01, 0xab)
    else if i < 90 then Pick(i - 75, 0x8b, 0x90, 0x64, 0x5b, 0x5b, 0x5b, 0x5b, 0x5b, 0x92, 0x5b, 0x5b, 0x76, 0x90, 0x92, 0x92)
    else if i < 105 then Pick(i - 90, 0x5b, 0x5b, 0x5b, 0x5b, 0x5b, 0x5b, 0x5b, 0x5b, 0x5b, 0x5b, 0x5b, 0x5b, 0x6a, 0x73, 0x90)
    else if i < 120 then Pick(i - 105, 0x5b, 0x52, 0x52, 0x52, 0x52, 0x5b, 0x5b, 0x5b, 0x5b, 0x77, 0x7c, 0x77, 0x85, 0x5b, 0x5b)
    else if i < 135 then Pick(i - 120, 0x70, 0x5b, 0x7a, 0xaf, 0x76, 0x76, 0x5b, 0x5b, 0x5b, 0x5b, 0x5b, 0x5b, 0x5b, 0x5b, 0x5b)
    else if i < 150 then Pick(i - 135, 0x5b, 0x5b, 0x86, 0x01, 0x03, 0x01, 0x04, 0x03, 0xd5, 0x03, 0xd5, 0x03, 0xcc, 0x01, 0xbc)
    else if i < 165 then Pick(i - 150, 0x03, 0xf0, 0x03, 0x03, 0x04, 0x00, 0x50, 0x50, 0x50, 0x50, 0xff, 0x20, 0x20, 0x20, 0x20)
    else if i < 180 then Pick(i - 165, 0x01, 0x01, 0x01, 0x01, 0xc4, 0x02, 0x10, 0xff, 0xff, 0xff, 0x01, 0x00, 0x03, 0x11, 0xff)
    else if i < 195 then Pick(i - 180, 0x03, 0xc4, 0xc6, 0xc8, 0x02, 0x10, 0x00, 0xff, 0xcc, 0x01, 0x01, 0x01, 0x00, 0x00, 0x00)
    else if i < 210 then Pick(i - 195, 0x00, 0x01, 0x01, 0x03, 0x01, 0xff, 0xff, 0xc0, 0xc2, 0x10, 0x11, 0x02, 0x03, 0x01, 0x01)
    else if i < 225 then Pick(i - 210, 0x01, 0xff, 0xff, 0xff, 0x00, 0x00, 0x00, 0xff, 0x00, 0x00, 0xff, 0xff, 0xff, 0xff, 0x10)
    else if i < 240 then Pick(i - 225, 0x10, 0x10, 0x10, 0x02, 0x10, 0x00, 0x00, 0xc6, 0xc8, 0x02, 0x02, 0x02, 0x02, 0x06, 0x00)
    else if i < 255 then Pick(i - 240, 0x04, 0x00, 0x02, 0xff, 0x00, 0xc0, 0xc2, 0x01, 0x01, 0x03, 0x03, 0x03, 0xca, 0x40, 0x00)
    else if i < 270 then Pick(i - 255, 0x0a, 0x00, 0x04, 0x00, 0x00, 0x00, 0x00, 0x7f, 0x00, 0x33, 0x01, 0x00, 0x00, 0x00, 0x00)
    else if i < 285 then Pick(i - 270, 0x00, 0x00, 0xff, 0xbf, 0xff, 0xff, 0x00, 0x00, 0x00, 0x00, 0x07, 0x00, 0x00, 0xff, 0x00)
    else if i < 300 then Pick(i - 285, 0x00, 0x00, 0x00, 0x00, 0x00, 0x00, 0x00, 0x00, 0x00, 0x00, 0x00, 0x00, 0x00, 0xff, 0xff)
    else if i < 315 then Pick(i - 300, 0x00, 0x00, 0x00, 0xbf, 0x00, 0x00, 0x00, 0x00, 0x00, 0x00, 0x00, 0x00, 0x7f, 0x00, 0x00)
    else if i < 330 then Pick(i - 315, 0xff, 0x40, 0x40, 0x40, 0x40, 0x41, 0x49, 0x40, 0x40, 0x40, 0x40, 0x4c, 0x42, 0x40, 0x40)
    else if i < 345 then Pick(i - 330, 0x40, 0x40, 0x40, 0x40, 0x40, 0x40, 0x4f, 0x44, 0x53, 0x40, 0x40, 0x40, 0x44, 0x57, 0x43)
    else if i < 360 then Pick(i - 345, 0x5c, 0x40, 0x60, 0x40, 0x40, 0x40, 0x40, 0x40, 0x40, 0x40, 0x40, 0x40, 0x40, 0x40, 0x40)
    else if i < 375 then Pick(i - 360, 0x40, 0x40, 0x64, 0x66, 0x6e, 0x6b, 0x40, 0x40, 0x6a, 0x46, 0x40, 0x40, 0x44, 0x46, 0x40)
    else if i < 390 then Pick(i - 375, 0x40, 0x5b, 0x44, 0x40, 0x40, 0x00, 0x00, 0x00, 0x00, 0x06, 0x06, 0x06, 0x06, 0x01, 0x06)
    else if i < 405 then Pick(i - 390, 0x06, 0x02, 0x06, 0x06, 0x00, 0x06, 0x00, 0x0a, 0x0a, 0x00, 0x00, 0x00, 0x02, 0x07, 0x07)
    else if i < 420 then Pick(i - 405, 0x06, 0x02, 0x0d, 0x06, 0x06, 0x06, 0x0e, 0x05, 0x05, 0x02, 0x02, 0x00, 0x00, 0x04, 0x04)
    else if i < 435 then Pick(i - 420, 0x04, 0x04, 0x05, 0x06, 0x06, 0x06, 0x00, 0x00, 0x00, 0x0e, 0x00, 0x00, 0x08, 0x00, 0x10)
    else if i < 450 then Pick(i - 435, 0x00, 0x18, 0x00, 0x20, 0x00, 0x28, 0x00, 0x30, 0x00, 0x80, 0x01, 0x82, 0x01, 0x86, 0x00)
    else if i < 465 then Pick(i - 450, 0xf6, 0xcf, 0xfe, 0x3f, 0xab, 0x00, 0xb0, 0x00, 0xb1, 0x00, 0xb3, 0x00, 0xba, 0xf8, 0xbb)
    else if i < 480 then Pick(i - 465, 0x00, 0xc0, 0x00, 0xc1, 0x00, 0xc7, 0xbf, 0x62, 0xff, 0x00, 0x8d, 0xff, 0x00, 0xc4, 0xff)
    else if i < 495 then Pick(i - 480, 0x00, 0xc5, 0xff, 0x00, 0xff, 0xff, 0xeb, 0x01, 0xff, 0x0e, 0x12, 0x08, 0x00, 0x13, 0x09)
    else if i < 510 then Pick(i - 495, 0x00, 0x16, 0x08, 0x00, 0x17, 0x09, 0x00, 0x2b, 0x09, 0x00, 0xae, 0xff, 0x07, 0xb2, 0xff)
    else if i < 525 then Pick(i - 510, 0x00, 0xb4, 0xff, 0x00, 0xb5, 0xff, 0x00, 0xc3, 0x01, 0x00, 0xc7, 0xff, 0xbf, 0xe7, 0x08)
    else Pick(i - 525, 0x00, 0xf0, 0x02, 0x00, 0x00, 0x00, 0x00, 0x00, 0x00, 0x00, 0x00, 0x00, 0x00, 0x00, 0x00)
  }

  const DELTA_OPCODES: nat := 0x4a
  const DELTA_FPU_REG: nat := 0xfd
  const DELTA_FPU_MODRM: nat := 0x104
  const DELTA_PREFIXES: nat := 0x13c
  const DELTA_OP_LOCK_OK: nat := 0x1ae
  const DELTA_OP2_LOCK_OK: nat := 0x1c6
  const DELTA_OP_ONLY_MEM: nat := 0x1d8
  const DELTA_OP2_ONLY_MEM: nat := 0x1e7

  const C_ERROR: Byte := 0xff

  /** The table entry of an opcode: the first level selects a group of four. */
  function Entry(base: nat, opcode: Byte): (r: Byte)
    requires base <= DELTA_OPCODES
  {
    Table(base + Table(base + opcode / 4) + opcode % 4)
  }

  /** The flags that drive decoding, after the error and group entries are resolved. */
  function Cflags(base: nat, opcode: Byte): (r: Byte)
    requires base <= DELTA_OPCODES
  {
    var e := Entry(base, opcode);
    if e == C_ERROR then (if opcode == 0x24 || opcode == 0x26 then 1 else 0)
    else if 0x80 <= e then Table(base + e % 0x80)
    else e
  }

  /** The forms of a group that do not exist, as a mask over the register field; 0 outside the groups. */
  function GroupMask(base: nat, opcode: Byte): (r: Byte)
    requires base <= DELTA_OPCODES
  {
    var e := Entry(base, opcode);
    if e == C_ERROR || e < 0x80 then 0 else Table(base + e % 0x80 + 1)
  }

  // ----- the opcode maps by ranges

  /** What a one-byte opcode is followed by. The eight arithmetic rows repeat the same six forms; pushes, pops and
      exchanges have no operand bytes. */
  function OneByteMap(op: Byte): (cflags: Byte) {
    if op < 0x40 then
      if op % 8 < 4 then 0x01 else if op % 8 == 4 then 0x02 else if op % 8 == 5 then 0x10 else 0x00
    else if op < 0x60 then 0x00
    else if op < 0x70 then
      if op == 0x63 then 0x01 else if op == 0x68 then 0x10 else if op == 0x69 then 0x11
      else if op == 0x6a then 0x02 else if op == 0x6b then 0x03 else 0x00
    else if op < 0x80 then 0x20
    else if op < 0x90 then
      if op == 0x80 || op == 0x83 then 0x03 else if op == 0x81 then 0x11 else if op == 0x82 then 0x00 else 0x01
    else if op < 0xa0 then 0x00
    else if op < 0xb0 then
      if op < 0xa4 || op == 0xa9 then 0x10 else if op == 0xa8 then 0x02 else 0x00
    else if op < 0xb8 then 0x02
    else if op < 0xc0 then 0x10
    else if op < 0xd0 then
      if op == 0xc0 || op == 0xc1 || op == 0xc6 then 0x03 else if op == 0xc7 then 0x11
      else if op == 0xc2 || op == 0xca then 0x04 else if op == 0xc8 then 0x06 else if op == 0xcd then 0x02 else 0x00
    else if op < 0xe0 then
      if op < 0xd4 || 0xd8 <= op then 0x01 else 0x00
    else if op < 0xf0 then
      if op < 0xe4 || op == 0xeb then 0x20 else if op < 0xe8 then 0x02 else if op < 0xea then 0x50 else 0x00
    else if op == 0xf6 || op == 0xf7 || op == 0xfe || op == 0xff then 0x01
    else 0x00
  }

  /** One-byte opcodes that do not exist in 64-bit mode, and some that the table leaves out. */
  predicate OneByteError(op: Byte) {
    || op == 0x06 || op == 0x07 || op == 0x0f || op == 0x16 || op == 0x17 || op == 0x1e || op == 0x1f
    || op == 0x27 || op == 0x2f || op == 0x37 || op == 0x3f || op == 0x60 || op == 0x61 || op == 0x62
    || op == 0x82 || op == 0x9a || op == 0x9e || op == 0x9f || op == 0xc4 || op == 0xc5 || op == 0xce
    || op == 0xd4 || op == 0xd5 || op == 0xd6 || op == 0xea
  }

  /** The missing forms of the one-byte groups. */
  function OneByteMissing(op: Byte): (mask: Byte) {
    if op == 0x8f || op == 0xc6 || op == 0xc7 then 0x7f else if op == 0xfe then 0x3f else if op == 0xff then 0x01 else 0x00
  }

  /** What a two-byte opcode is followed by: nearly always a ModRM byte. */
  function TwoByteMap(op: Byte): (cflags: Byte) {
    if op < 0x10 then
      if op < 0x04 || op == 0x0d then 0x01 else if op == 0x0f then 0x03 else 0x00
    else if op < 0x30 then
      if op == 0x25 || op == 0x27 then 0x00 else 0x01
    else if op < 0x40 then 0x00
    else if op < 0x70 then 0x01
    else if op < 0x80 then
      if op < 0x74 then 0x03 else if op < 0x77 || 0x7c <= op then 0x01 else 0x00
    else if op < 0x90 then 0x50
    else if op < 0xa0 then 0x01
    else if op < 0xb0 then
      if op == 0xa4 || op == 0xac then 0x03
      else if op == 0xa3 || op == 0xa5 || op == 0xab || 0xad <= op then 0x01 else 0x00
    else if op < 0xc0 then
      if op == 0xb8 || op == 0xb9 then 0x00 else if op == 0xba then 0x03 else 0x01
    else if op < 0xd0 then
      if op == 0xc2 || op == 0xc4 || op == 0xc5 || op == 0xc6 then 0x03 else if op < 0xc8 then 0x01 else 0x00
    else if op == 0xff then 0x00
    else 0x01
  }

  predicate TwoByteError(op: Byte) {
    || op == 0x04 || op == 0x0a || op == 0x0b || op == 0x0c || 0x24 <= op <= 0x27 || 0x36 <= op <= 0x3f
    || op == 0x7a || op == 0x7b || op == 0xa6 || op == 0xa7 || op == 0xb9 || op == 0xff
  }

  /** The missing forms of the two-byte groups. */
  function TwoByteMissing(op: Byte): (mask: Byte) {
    if op == 0x00 then 0x03 else if op == 0x01 then 0x04 else if op == 0x71 || op == 0x72 then 0xd5
    else if op == 0x73 then 0xcc else if op == 0xba then 0xf0 else if op == 0xc7 then 0xbc else 0x00
  }

  /** The prefixes that a two-byte opcode forbids, as a mask of PRE_ bits. */
  function TwoByteForbidden(op: Byte): (mask: Byte) {
    if op < 0x20 then
      if op == 0x13 || op == 0x14 || op == 0x15 || op == 0x17 then 0x06 else if op == 0x16 then 0x02 else 0x00
    else if op < 0x50 then
      if op == 0x28 || op == 0x29 || op == 0x2b || op == 0x2e || op == 0x2f then 0x06 else 0x00
    else if op < 0x60 then
      if op == 0x50 || 0x54 <= op <= 0x57 then 0x06 else if op == 0x52 || op == 0x53 then 0x0a
      else if op == 0x5b then 0x02 else 0x00
    else if op < 0x70 then
      if op < 0x68 then 0x00 else if op == 0x6c || op == 0x6d then 0x07 else if op == 0x6f then 0x02 else 0x06
    else if op < 0x80 then
      if 0x71 <= op <= 0x76 then 0x06 else if op == 0x77 then 0x0e else if op == 0x7c || op == 0x7d then 0x05
      else if op == 0x7e || op == 0x7f then 0x02 else 0x00
    else if op < 0xc0 then
      if 0xba <= op then 0x04 else 0x00
    else if op < 0xd0 then
      if op == 0xc3 then 0x0e else if 0xc4 <= op <= 0xc6 then 0x06 else 0x00
    else if op % 16 >= 8 then 0x00
    else if op == 0xd0 then 0x05
    else if op == 0xd6 || op == 0xe6 then 0x01
    else if op == 0xf0 then 0x0d
    else 0x06
  }

  /** The table says of a one-byte opcode what the map says. */
  predicate OneByteAgrees(op: Byte) {
    && Cflags(0, op) == OneByteMap(op)
    && (Entry(0, op) == C_ERROR <==> OneByteError(op))
    && GroupMask(0, op) == OneByteMissing(op)
  }

  /** The table says of a two-byte opcode what the maps say. */
  predicate TwoByteAgrees(op: Byte) {
    && Cflags(DELTA_OPCODES, op) == TwoByteMap(op)
    && (Entry(DELTA_OPCODES, op) == C_ERROR <==> TwoByteError(op))
    && GroupMask(DELTA_OPCODES, op) == TwoByteMissing(op)
  }

  /** The table entry `e`, of an opcode in no group, is what the map says. */
  predicate OneByteSays(op: Byte, e: Byte) {
    && OneByteMissing(op) == 0 && (e == C_ERROR <==> OneByteError(op))
    && OneByteMap(op) == if e != C_ERROR then e else if op == 0x24 || op == 0x26 then 1 else 0
  }

  lemma OneByteSingle(op: Byte, row: Byte, e: Byte)
    requires Table(op / 4) == row && Table(row + op % 4) == e && (e < 0x80 || e == C_ERROR) && OneByteSays(op, e)
    ensures OneByteAgrees(op)
  {
    hide Table, OneByteMap, OneByteError, OneByteMissing;
  }

  lemma OneByteGroup(op: Byte, row: Byte, e: Byte)
    requires Table(op / 4) == row && Table(row + op % 4) == e && 0x80 <= e < C_ERROR && !OneByteError(op)
    requires Table(e % 0x80) == OneByteMap(op) && Table(e % 0x80 + 1) == OneByteMissing(op)
    ensures OneByteAgrees(op)
  {
    hide Table, OneByteMap, OneByteError, OneByteMissing;
  }

  /** Four opcodes that share an entry of the first level and are in no group. */
  lemma OneByteFour(k: nat, row: Byte, e0: Byte, e1: Byte, e2: Byte, e3: Byte)
    requires k < 64 && Table(k) == row
    requires Table(row) == e0 && (e0 < 0x80 || e0 == C_ERROR) && OneByteSays(4 * k, e0)
    requires Table(row + 1) == e1 && (e1 < 0x80 || e1 == C_ERROR) && OneByteSays(4 * k + 1, e1)
    requires Table(row + 2) == e2 && (e2 < 0x80 || e2 == C_ERROR) && OneByteSays(4 * k + 2, e2)
    requires Table(row + 3) == e3 && (e3 < 0x80 || e3 == C_ERROR) && OneByteSays(4 * k + 3, e3)
    ensures OneByteAgrees(4 * k) && OneByteAgrees(4 * k + 1) && OneByteAgrees(4 * k + 2) && OneByteAgrees(4 * k + 3)
  {
    hide Table, OneByteSays, OneByteAgrees;
    OneByteSingle(4 * k, row, e0);
    OneByteSingle(4 * k + 1, row, e1);
    OneByteSingle(4 * k + 2, row, e2);
    OneByteSingle(4 * k + 3, row, e3);
  }

  lemma OneByteRow0(op: Byte)
    requires op < 0x10
    ensures OneByteAgrees(op)
  {
    hide OneByteAgrees;
    if op < 0x04 { OneByteFour(0x00, 0xa5, 0x01, 0x01, 0x01, 0x01); }
    else if op < 0x08 { OneByteFour(0x01, 0xaa, 0x02, 0x10, 0xff, 0xff); }
    else if op < 0x0c { OneByteFour(0x02, 0xa5, 0x01, 0x01, 0x01, 0x01); }
    else { OneByteFour(0x03, 0xb8, 0x02, 0x10, 0x00, 0xff); }
  }

  lemma OneByteRow1(op: Byte)
    requires 0x10 <= op < 0x20
    ensures OneByteAgrees(op)
  {
    hide OneByteAgrees;
    if op < 0x14 { OneByteFour(0x04, 0xa5, 0x01, 0x01, 0x01, 0x01); }
    else if op < 0x18 { OneByteFour(0x05, 0xaa, 0x02, 0x10, 0xff, 0xff); }
    else if op < 0x1c { OneByteFour(0x06, 0xa5, 0x01, 0x01, 0x01, 0x01); }
    else { OneByteFour(0x07, 0xaa, 0x02, 0x10, 0xff, 0xff); }
  }

  lemma OneByteRow2(op: Byte)
    requires 0x20 <= op < 0x30
    ensures OneByteAgrees(op)
  {
    hide OneByteAgrees;
    if op < 0x24 { OneByteFour(0x08, 0xa5, 0x01, 0x01, 0x01, 0x01); }
    else if op < 0x28 { OneByteFour(0x09, 0xb8, 0x02, 0x10, 0x00, 0xff); }
    else if op < 0x2c { OneByteFour(0x0a, 0xa5, 0x01, 0x01, 0x01, 0x01); }
    else { OneByteFour(0x0b, 0xb8, 0x02, 0x10, 0x00, 0xff); }
  }

  lemma OneByteRow3(op: Byte)
    requires 0x30 <= op < 0x40
    ensures OneByteAgrees(op)
  {
    hide OneByteAgrees;
    if op < 0x34 { OneByteFour(0x0c, 0xa5, 0x01, 0x01, 0x01, 0x01); }
    else if op < 0x38 { OneByteFour(0x0d, 0xb8, 0x02, 0x10, 0x00, 0xff); }
    else if op < 0x3c { OneByteFour(0x0e, 0xa5, 0x01, 0x01, 0x01, 0x01); }
    else { OneByteFour(0x0f, 0xb8, 0x02, 0x10, 0x00, 0xff); }
  }

  lemma OneByteRow4(op: Byte)
    requires 0x40 <= op < 0x50
    ensures OneByteAgrees(op)
  {
    hide OneByteAgrees;
    if op < 0x44 { OneByteFour(0x10, 0xc0, 0x00, 0x00, 0x00, 0x00); }
    else if op < 0x48 { OneByteFour(0x11, 0xc0, 0x00, 0x00, 0x00, 0x00); }
    else if op < 0x4c { OneByteFour(0x12, 0xc0, 0x00, 0x00, 0x00, 0x00); }
    else { OneByteFour(0x13, 0xc0, 0x00, 0x00, 0x00, 0x00); }
  }

  lemma OneByteRow5(op: Byte)
    requires 0x50 <= op < 0x60
    ensures OneByteAgrees(op)
  {
    hide OneByteAgrees;
    if op < 0x54 { OneByteFour(0x14, 0xc0, 0x00, 0x00, 0x00, 0x00); }
    else if op < 0x58 { OneByteFour(0x15, 0xc0, 0x00, 0x00, 0x00, 0x00); }
    else if op < 0x5c { OneByteFour(0x16, 0xc0, 0x00, 0x00, 0x00, 0x00); }
    else { OneByteFour(0x17, 0xc0, 0x00, 0x00, 0x00, 0x00); }
  }

  lemma OneByteRow6(op: Byte)
    requires 0x60 <= op < 0x70
    ensures OneByteAgrees(op)
  {
    hide OneByteAgrees;
    if op < 0x64 { OneByteFour(0x18, 0xac, 0xff, 0xff, 0xff, 0x01); }
    else if op < 0x68 { OneByteFour(0x19, 0xc0, 0x00, 0x00, 0x00, 0x00); }
    else if op < 0x6c { OneByteFour(0x1a, 0xcc, 0x10, 0x11, 0x02, 0x03); }
    else { OneByteFour(0x1b, 0xc0, 0x00, 0x00, 0x00, 0x00); }
  }

  lemma OneByteRow7(op: Byte)
    requires 0x70 <= op < 0x80
    ensures OneByteAgrees(op)
  {
    hide OneByteAgrees;
    if op < 0x74 { OneByteFour(0x1c, 0xa1, 0x20, 0x20, 0x20, 0x20); }
    else if op < 0x78 { OneByteFour(0x1d, 0xa1, 0x20, 0x20, 0x20, 0x20); }
    else if op < 0x7c { OneByteFour(0x1e, 0xa1, 0x20, 0x20, 0x20, 0x20); }
    else { OneByteFour(0x1f, 0xa1, 0x20, 0x20, 0x20, 0x20); }
  }

  lemma OneByteRow8(op: Byte)
    requires 0x80 <= op < 0x90
    ensures OneByteAgrees(op)
  {
    hide OneByteAgrees;
    if op < 0x84 { OneByteFour(0x20, 0xb1, 0x03, 0x11, 0xff, 0x03); }
    else if op < 0x88 { OneByteFour(0x21, 0xa5, 0x01, 0x01, 0x01, 0x01); }
    else if op < 0x8c { OneByteFour(0x22, 0xa5, 0x01, 0x01, 0x01, 0x01); }
    else if op < 0x8d { OneByteSingle(0x8c, 0xa6, 0x01); }
    else if op < 0x8e { OneByteSingle(0x8d, 0xa6, 0x01); }
    else if op < 0x8f { OneByteSingle(0x8e, 0xa6, 0x01); }
    else { OneByteGroup(0x8f, 0xa6, 0xc4); }
  }

  lemma OneByteRow9(op: Byte)
    requires 0x90 <= op < 0xa0
    ensures OneByteAgrees(op)
  {
    hide OneByteAgrees;
    if op < 0x94 { OneByteFour(0x24, 0xc0, 0x00, 0x00, 0x00, 0x00); }
    else if op < 0x98 { OneByteFour(0x25, 0xc0, 0x00, 0x00, 0x00, 0x00); }
    else if op < 0x9c { OneByteFour(0x26, 0xd7, 0x00, 0x00, 0xff, 0x00); }
    else { OneByteFour(0x27, 0xda, 0x00, 0x00, 0xff, 0xff); }
  }

  lemma OneByteRowa(op: Byte)
    requires 0xa0 <= op < 0xb0
    ensures OneByteAgrees(op)
  {
    hide OneByteAgrees;
    if op < 0xa4 { OneByteFour(0x28, 0xe0, 0x10, 0x10, 0x10, 0x10); }
    else if op < 0xa8 { OneByteFour(0x29, 0xc0, 0x00, 0x00, 0x00, 0x00); }
    else if op < 0xac { OneByteFour(0x2a, 0xe4, 0x02, 0x10, 0x00, 0x00); }
    else { OneByteFour(0x2b, 0xc0, 0x00, 0x00, 0x00, 0x00); }
  }

  lemma OneByteRowb(op: Byte)
    requires 0xb0 <= op < 0xc0
    ensures OneByteAgrees(op)
  {
    hide OneByteAgrees;
    if op < 0xb4 { OneByteFour(0x2c, 0xea, 0x02, 0x02, 0x02, 0x02); }
    else if op < 0xb8 { OneByteFour(0x2d, 0xea, 0x02, 0x02, 0x02, 0x02); }
    else if op < 0xbc { OneByteFour(0x2e, 0xe0, 0x10, 0x10, 0x10, 0x10); }
    else { OneByteFour(0x2f, 0xe0, 0x10, 0x10, 0x10, 0x10); }
  }

  lemma OneByteRowc(op: Byte)
    requires 0xc0 <= op < 0xd0
    ensures OneByteAgrees(op)
  {
    hide OneByteAgrees;
    if op < 0xc4 { OneByteFour(0x30, 0x98, 0x03, 0x03, 0x04, 0x00); }
    else if op < 0xc5 { OneByteSingle(0xc4, 0xc8, 0xff); }
    else if op < 0xc6 { OneByteSingle(0xc5, 0xc8, 0xff); }
    else if op < 0xc7 { OneByteGroup(0xc6, 0xc8, 0xc0); }
    else if op < 0xc8 { OneByteGroup(0xc7, 0xc8, 0xc2); }
    else if op < 0xcc { OneByteFour(0x32, 0xee, 0x06, 0x00, 0x04, 0x00); }
    else { OneByteFour(0x33, 0xf1, 0x00, 0x02, 0xff, 0x00); }
  }

  lemma OneByteRowd(op: Byte)
    requires 0xd0 <= op < 0xe0
    ensures OneByteAgrees(op)
  {
    hide OneByteAgrees;
    if op < 0xd4 { OneByteFour(0x34, 0xa5, 0x01, 0x01, 0x01, 0x01); }
    else if op < 0xd8 { OneByteFour(0x35, 0xd3, 0xff, 0xff, 0xff, 0x00); }
    else if op < 0xdc { OneByteFour(0x36, 0xa5, 0x01, 0x01, 0x01, 0x01); }
    else { OneByteFour(0x37, 0xa5, 0x01, 0x01, 0x01, 0x01); }
  }

  lemma OneByteRowe(op: Byte)
    requires 0xe0 <= op < 0xf0
    ensures OneByteAgrees(op)
  {
    hide OneByteAgrees;
    if op < 0xe4 { OneByteFour(0x38, 0xa1, 0x20, 0x20, 0x20, 0x20); }
    else if op < 0xe8 { OneByteFour(0x39, 0xea, 0x02, 0x02, 0x02, 0x02); }
    else if op < 0xec { OneByteFour(0x3a, 0x9e, 0x50, 0x50, 0xff, 0x20); }
    else { OneByteFour(0x3b, 0xc0, 0x00, 0x00, 0x00, 0x00); }
  }

  lemma OneByteRowf(op: Byte)
    requires 0xf0 <= op
    ensures OneByteAgrees(op)
  {
    hide OneByteAgrees;
    if op < 0xf4 { OneByteFour(0x3c, 0xc0, 0x00, 0x00, 0x00, 0x00); }
    else if op < 0xf8 { OneByteFour(0x3d, 0xc2, 0x00, 0x00, 0x01, 0x01); }
    else if op < 0xfc { OneByteFour(0x3e, 0xc0, 0x00, 0x00, 0x00, 0x00); }
    else if op < 0xfd { OneByteSingle(0xfc, 0xe6, 0x00); }
    else if op < 0xfe { OneByteSingle(0xfd, 0xe6, 0x00); }
    else if op < 0xff { OneByteGroup(0xfe, 0xe6, 0xc6); }
    else { OneByteGroup(0xff, 0xe6, 0xc8); }
  }

  /** Every entry of the table for one-byte opcodes. */
  lemma OneByteTable(op: Byte)
    ensures OneByteAgrees(op)
  {
    hide OneByteAgrees;
    if op < 0x10 { OneByteRow0(op); } else if op < 0x20 { OneByteRow1(op); } else if op < 0x30 { OneByteRow2(op); }
    else if op < 0x40 { OneByteRow3(op); } else if op < 0x50 { OneByteRow4(op); } else if op < 0x60 { OneByteRow5(op); }
    else if op < 0x70 { OneByteRow6(op); } else if op < 0x80 { OneByteRow7(op); } else if op < 0x90 { OneByteRow8(op); }
    else if op < 0xa0 { OneByteRow9(op); } else if op < 0xb0 { OneByteRowa(op); } else if op < 0xc0 { OneByteRowb(op); }
    else if op < 0xd0 { OneByteRowc(op); } else if op < 0xe0 { OneByteRowd(op); } else if op < 0xf0 { OneByteRowe(op); }
    else { OneByteRowf(op); }
  }

  /** The table entry `e`, of an opcode in no group, is what the map says. */
  predicate TwoByteSays(op: Byte, e: Byte) {
    && TwoByteMissing(op) == 0 && (e == C_ERROR <==> TwoByteError(op))
    && TwoByteMap(op) == if e != C_ERROR then e else if op == 0x24 || op == 0x26 then 1 else 0
  }

  lemma TwoByteSingle(op: Byte, row: Byte, e: Byte)
    requires Table(DELTA_OPCODES + op / 4) == row && Table(DELTA_OPCODES + row + op % 4) == e && (e < 0x80 || e == C_ERROR) && TwoByteSays(op, e)
    ensures TwoByteAgrees(op)
  {
    hide Table, TwoByteMap, TwoByteError, TwoByteMissing;
  }

  lemma TwoByteGroup(op: Byte, row: Byte, e: Byte)
    requires Table(DELTA_OPCODES + op / 4) == row && Table(DELTA_OPCODES + row + op % 4) == e && 0x80 <= e < C_ERROR && !TwoByteError(op)
    requires Table(DELTA_OPCODES + e % 0x80) == TwoByteMap(op) && Table(DELTA_OPCODES + e % 0x80 + 1) == TwoByteMissing(op)
    ensures TwoByteAgrees(op)
  {
    hide Table, TwoByteMap, TwoByteError, TwoByteMissing;
  }

  /** Four opcodes that share an entry of the first level and are in no group. */
  lemma TwoByteFour(k: nat, row: Byte, e0: Byte, e1: Byte, e2: Byte, e3: Byte)
    requires k < 64 && Table(DELTA_OPCODES + k) == row
    requires Table(DELTA_OPCODES + row) == e0 && (e0 < 0x80 || e0 == C_ERROR) && TwoByteSays(4 * k, e0)
    requires Table(DELTA_OPCODES + row + 1) == e1 && (e1 < 0x80 || e1 == C_ERROR) && TwoByteSays(4 * k + 1, e1)
    requires Table(DELTA_OPCODES + row + 2) == e2 && (e2 < 0x80 || e2 == C_ERROR) && TwoByteSays(4 * k + 2, e2)
    requires Table(DELTA_OPCODES + row + 3) == e3 && (e3 < 0x80 || e3 == C_ERROR) && TwoByteSays(4 * k + 3, e3)
    ensures TwoByteAgrees(4 * k) && TwoByteAgrees(4 * k + 1) && TwoByteAgrees(4 * k + 2) && TwoByteAgrees(4 * k + 3)
  {
    hide Table, TwoByteSays, TwoByteAgrees;
    TwoByteSingle(4 * k, row, e0);
    TwoByteSingle(4 * k + 1, row, e1);
    TwoByteSingle(4 * k + 2, row, e2);
    TwoByteSingle(4 * k + 3, row, e3);
  }

  lemma TwoByteRow0(op: Byte)
    requires op < 0x10
    ensures TwoByteAgrees(op)
  {
    hide TwoByteAgrees;
    if op < 0x01 { TwoByteGroup(0x00, 0xab, 0xc0); }
    else if op < 0x02 { TwoByteGroup(0x01, 0xab, 0xc2); }
    else if op < 0x03 { TwoByteSingle(0x02, 0xab, 0x01); }
    else if op < 0x04 { TwoByteSingle(0x03, 0xab, 0x01); }
    else if op < 0x08 { TwoByteFour(0x01, 0x8b, 0xff, 0x00, 0x00, 0x00); }
    else if op < 0x0c { TwoByteFour(0x02, 0x90, 0x00, 0x00, 0xff, 0xff); }
    else { TwoByteFour(0x03, 0x64, 0xff, 0x01, 0x00, 0x03); }
  }

  lemma TwoByteRow1(op: Byte)
    requires 0x10 <= op < 0x20
    ensures TwoByteAgrees(op)
  {
    hide TwoByteAgrees;
    if op < 0x14 { TwoByteFour(0x04, 0x5b, 0x01, 0x01, 0x01, 0x01); }
    else if op < 0x18 { TwoByteFour(0x05, 0x5b, 0x01, 0x01, 0x01, 0x01); }
    else if op < 0x1c { TwoByteFour(0x06, 0x5b, 0x01, 0x01, 0x01, 0x01); }
    else { TwoByteFour(0x07, 0x5b, 0x01, 0x01, 0x01, 0x01); }
  }

  lemma TwoByteRow2(op: Byte)
    requires 0x20 <= op < 0x30
    ensures TwoByteAgrees(op)
  {
    hide TwoByteAgrees;
    if op < 0x24 { TwoByteFour(0x08, 0x5b, 0x01, 0x01, 0x01, 0x01); }
    else if op < 0x28 { TwoByteFour(0x09, 0x92, 0xff, 0xff, 0xff, 0xff); }
    else if op < 0x2c { TwoByteFour(0x0a, 0x5b, 0x01, 0x01, 0x01, 0x01); }
    else { TwoByteFour(0x0b, 0x5b, 0x01, 0x01, 0x01, 0x01); }
  }

  lemma TwoByteRow3(op: Byte)
    requires 0x30 <= op < 0x40
    ensures TwoByteAgrees(op)
  {
    hide TwoByteAgrees;
    if op < 0x34 { TwoByteFour(0x0c, 0x76, 0x00, 0x00, 0x00, 0x00); }
    else if op < 0x38 { TwoByteFour(0x0d, 0x90, 0x00, 0x00, 0xff, 0xff); }
    else if op < 0x3c { TwoByteFour(0x0e, 0x92, 0xff, 0xff, 0xff, 0xff); }
    else { TwoByteFour(0x0f, 0x92, 0xff, 0xff, 0xff, 0xff); }
  }

  lemma TwoByteRow4(op: Byte)
    requires 0x40 <= op < 0x50
    ensures TwoByteAgrees(op)
  {
    hide TwoByteAgrees;
    if op < 0x44 { TwoByteFour(0x10, 0x5b, 0x01, 0x01, 0x01, 0x01); }
    else if op < 0x48 { TwoByteFour(0x11, 0x5b, 0x01, 0x01, 0x01, 0x01); }
    else if op < 0x4c { TwoByteFour(0x12, 0x5b, 0x01, 0x01, 0x01, 0x01); }
    else { TwoByteFour(0x13, 0x5b, 0x01, 0x01, 0x01, 0x01); }
  }

  lemma TwoByteRow5(op: Byte)
    requires 0x50 <= op < 0x60
    ensures TwoByteAgrees(op)
  {
    hide TwoByteAgrees;
    if op < 0x54 { TwoByteFour(0x14, 0x5b, 0x01, 0x01, 0x01, 0x01); }
    else if op < 0x58 { TwoByteFour(0x15, 0x5b, 0x01, 0x01, 0x01, 0x01); }
    else if op < 0x5c { TwoByteFour(0x16, 0x5b, 0x01, 0x01, 0x01, 0x01); }
    else { TwoByteFour(0x17, 0x5b, 0x01, 0x01, 0x01, 0x01); }
  }

  lemma TwoByteRow6(op: Byte)
    requires 0x60 <= op < 0x70
    ensures TwoByteAgrees(op)
  {
    hide TwoByteAgrees;
    if op < 0x64 { TwoByteFour(0x18, 0x5b, 0x01, 0x01, 0x01, 0x01); }
    else if op < 0x68 { TwoByteFour(0x19, 0x5b, 0x01, 0x01, 0x01, 0x01); }
    else if op < 0x6c { TwoByteFour(0x1a, 0x5b, 0x01, 0x01, 0x01, 0x01); }
    else { TwoByteFour(0x1b, 0x5b, 0x01, 0x01, 0x01, 0x01); }
  }

  lemma TwoByteRow7(op: Byte)
    requires 0x70 <= op < 0x80
    ensures TwoByteAgrees(op)
  {
    hide TwoByteAgrees;
    if op < 0x71 { TwoByteSingle(0x70, 0x6a, 0x03); }
    else if op < 0x72 { TwoByteGroup(0x71, 0x6a, 0xc4); }
    else if op < 0x73 { TwoByteGroup(0x72, 0x6a, 0xc6); }
    else if op < 0x74 { TwoByteGroup(0x73, 0x6a, 0xc8); }
    else if op < 0x78 { TwoByteFour(0x1d, 0x73, 0x01, 0x01, 0x01, 0x00); }
    else if op < 0x7c { TwoByteFour(0x1e, 0x90, 0x00, 0x00, 0xff, 0xff); }
    else { TwoByteFour(0x1f, 0x5b, 0x01, 0x01, 0x01, 0x01); }
  }

  lemma TwoByteRow8(op: Byte)
    requires 0x80 <= op < 0x90
    ensures TwoByteAgrees(op)
  {
    hide TwoByteAgrees;
    if op < 0x84 { TwoByteFour(0x20, 0x52, 0x50, 0x50, 0x50, 0x50); }
    else if op < 0x88 { TwoByteFour(0x21, 0x52, 0x50, 0x50, 0x50, 0x50); }
    else if op < 0x8c { TwoByteFour(0x22, 0x52, 0x50, 0x50, 0x50, 0x50); }
    else { TwoByteFour(0x23, 0x52, 0x50, 0x50, 0x50, 0x50); }
  }

  lemma TwoByteRow9(op: Byte)
    requires 0x90 <= op < 0xa0
    ensures TwoByteAgrees(op)
  {
    hide TwoByteAgrees;
    if op < 0x94 { TwoByteFour(0x24, 0x5b, 0x01, 0x01, 0x01, 0x01); }
    else if op < 0x98 { TwoByteFour(0x25, 0x5b, 0x01, 0x01, 0x01, 0x01); }
    else if op < 0x9c { TwoByteFour(0x26, 0x5b, 0x01, 0x01, 0x01, 0x01); }
    else { TwoByteFour(0x27, 0x5b, 0x01, 0x01, 0x01, 0x01); }
  }

  lemma TwoByteRowa(op: Byte)
    requires 0xa0 <= op < 0xb0
    ensures TwoByteAgrees(op)
  {
    hide TwoByteAgrees;
    if op < 0xa4 { TwoByteFour(0x28, 0x77, 0x00, 0x00, 0x00, 0x01); }
    else if op < 0xa8 { TwoByteFour(0x29, 0x7c, 0x03, 0x01, 0xff, 0xff); }
    else if op < 0xac { TwoByteFour(0x2a, 0x77, 0x00, 0x00, 0x00, 0x01); }
    else { TwoByteFour(0x2b, 0x85, 0x03, 0x01, 0x01, 0x01); }
  }

  lemma TwoByteRowb(op: Byte)
    requires 0xb0 <= op < 0xc0
    ensures TwoByteAgrees(op)
  {
    hide TwoByteAgrees;
    if op < 0xb4 { TwoByteFour(0x2c, 0x5b, 0x01, 0x01, 0x01, 0x01); }
    else if op < 0xb8 { TwoByteFour(0x2d, 0x5b, 0x01, 0x01, 0x01, 0x01); }
    else if op < 0xb9 { TwoByteSingle(0xb8, 0x70, 0x00); }
    else if op < 0xba { TwoByteSingle(0xb9, 0x70, 0xff); }
    else if op < 0xbb { TwoByteGroup(0xba, 0x70, 0xcc); }
    else if op < 0xbc { TwoByteSingle(0xbb, 0x70, 0x01); }
    else { TwoByteFour(0x2f, 0x5b, 0x01, 0x01, 0x01, 0x01); }
  }

  lemma TwoByteRowc(op: Byte)
    requires 0xc0 <= op < 0xd0
    ensures TwoByteAgrees(op)
  {
    hide TwoByteAgrees;
    if op < 0xc4 { TwoByteFour(0x30, 0x7a, 0x01, 0x01, 0x03, 0x01); }
    else if op < 0xc5 { TwoByteSingle(0xc4, 0xaf, 0x03); }
    else if op < 0xc6 { TwoByteSingle(0xc5, 0xaf, 0x03); }
    else if op < 0xc7 { TwoByteSingle(0xc6, 0xaf, 0x03); }
    else if op < 0xc8 { TwoByteGroup(0xc7, 0xaf, 0xca); }
    else if op < 0xcc { TwoByteFour(0x32, 0x76, 0x00, 0x00, 0x00, 0x00); }
    else { TwoByteFour(0x33, 0x76, 0x00, 0x00, 0x00, 0x00); }
  }

  lemma TwoByteRowd(op: Byte)
    requires 0xd0 <= op < 0xe0
    ensures TwoByteAgrees(op)
  {
    hide TwoByteAgrees;
    if op < 0xd4 { TwoByteFour(0x34, 0x5b, 0x01, 0x01, 0x01, 0x01); }
    else if op < 0xd8 { TwoByteFour(0x35, 0x5b, 0x01, 0x01, 0x01, 0x01); }
    else if op < 0xdc { TwoByteFour(0x36, 0x5b, 0x01, 0x01, 0x01, 0x01); }
    else { TwoByteFour(0x37, 0x5b, 0x01, 0x01, 0x01, 0x01); }
  }

  lemma TwoByteRowe(op: Byte)
    requires 0xe0 <= op < 0xf0
    ensures TwoByteAgrees(op)
  {
    hide TwoByteAgrees;
    if op < 0xe4 { TwoByteFour(0x38, 0x5b, 0x01, 0x01, 0x01, 0x01); }
    else if op < 0xe8 { TwoByteFour(0x39, 0x5b, 0x01, 0x01, 0x01, 0x01); }
    else if op < 0xec { TwoByteFour(0x3a, 0x5b, 0x01, 0x01, 0x01, 0x01); }
    else { TwoByteFour(0x3b, 0x5b, 0x01, 0x01, 0x01, 0x01); }
  }

  lemma TwoByteRowf(op: Byte)
    requires 0xf0 <= op
    ensures TwoByteAgrees(op)
  {
    hide TwoByteAgrees;
    if op < 0xf4 { TwoByteFour(0x3c, 0x5b, 0x01, 0x01, 0x01, 0x01); }
    else if op < 0xf8 { TwoByteFour(0x3d, 0x5b, 0x01, 0x01, 0x01, 0x01); }
    else if op < 0xfc { TwoByteFour(0x3e, 0x5b, 0x01, 0x01, 0x01, 0x01); }
    else { TwoByteFour(0x3f, 0x86, 0x01, 0x01, 0x01, 0xff); }
  }

  /** Every entry of the table for two-byte opcodes. */
  lemma TwoByteTable(op: Byte)
    ensures TwoByteAgrees(op)
  {
    hide TwoByteAgrees;
    if op < 0x10 { TwoByteRow0(op); } else if op < 0x20 { TwoByteRow1(op); } else if op < 0x30 { TwoByteRow2(op); }
    else if op < 0x40 { TwoByteRow3(op); } else if op < 0x50 { TwoByteRow4(op); } else if op < 0x60 { TwoByteRow5(op); }
    else if op < 0x70 { TwoByteRow6(op); } else if op < 0x80 { TwoByteRow7(op); } else if op < 0x90 { TwoByteRow8(op); }
    else if op < 0xa0 { TwoByteRow9(op); } else if op < 0xb0 { TwoByteRowa(op); } else if op < 0xc0 { TwoByteRowb(op); }
    else if op < 0xd0 { TwoByteRowc(op); } else if op < 0xe0 { TwoByteRowd(op); } else if op < 0xf0 { TwoByteRowe(op); }
    else { TwoByteRowf(op); }
  }

  const KNOWN_CFLAGS: set<int> := {0x00, 0x01, 0x02, 0x03, 0x04, 0x06, 0x10, 0x11, 0x20, 0x50}

  /** Only ten flag combinations occur; those of 0xf6 and 0xf7 are a lone ModRM, and only ENTER has two immediates. */
  lemma CflagsKnown(base: nat, opcode: Byte)
    requires base == 0 || base == DELTA_OPCODES
    ensures Cflags(base, opcode) in KNOWN_CFLAGS
    ensures opcode == 0xf6 || opcode == 0xf7 ==> Cflags(base, opcode) == 0x01
    ensures Cflags(base, opcode) == 0x06 ==> base == 0 && opcode == 0xc8
  {
    hide Cflags, Entry, GroupMask;
    if base == 0 { OneByteTable(opcode); } else { TwoByteTable(opcode); }
  }

  /** The second-level index into the prefix table never leaves the table. */
  lemma PrefixIndex(opcode: Byte)
    ensures DELTA_PREFIXES + Table(DELTA_PREFIXES + opcode / 4) as int + opcode % 4 < SIZE
  {
  }

  /** The prefixes forbidden with a two-byte opcode: the first level selects a group of four. */
  function PrefixMask(op: Byte): (mask: Byte) {
    PrefixIndex(op);
    Table(DELTA_PREFIXES + Table(DELTA_PREFIXES + op / 4) as int + op % 4)
  }

  lemma PrefixFour(k: nat, row: Byte, e0: Byte, e1: Byte, e2: Byte, e3: Byte)
    requires k < 64 && Table(DELTA_PREFIXES + k) == row && DELTA_PREFIXES + row + 3 < SIZE
    requires Table(DELTA_PREFIXES + row) == e0 == TwoByteForbidden(4 * k)
    requires Table(DELTA_PREFIXES + row + 1) == e1 == TwoByteForbidden(4 * k + 1)
    requires Table(DELTA_PREFIXES + row + 2) == e2 == TwoByteForbidden(4 * k + 2)
    requires Table(DELTA_PREFIXES + row + 3) == e3 == TwoByteForbidden(4 * k + 3)
    ensures forall op: Byte :: 4 * k <= op < 4 * k + 4 ==> PrefixMask(op) == TwoByteForbidden(op)
  {
    hide Table, TwoByteForbidden;
    forall op: Byte | 4 * k <= op < 4 * k + 4
      ensures PrefixMask(op) == TwoByteForbidden(op)
    {
      assert op / 4 == k && (op == 4 * k || op == 4 * k + 1 || op == 4 * k + 2 || op == 4 * k + 3);
    }
  }

  lemma PrefixRow0(op: Byte)
    requires op < 0x10
    ensures PrefixMask(op) == TwoByteForbidden(op)
  {
    hide PrefixMask;
    if op < 0x04 { PrefixFour(0x00, 0x40, 0x00, 0x00, 0x00, 0x00); }
    else if op < 0x08 { PrefixFour(0x01, 0x40, 0x00, 0x00, 0x00, 0x00); }
    else if op < 0x0c { PrefixFour(0x02, 0x40, 0x00, 0x00, 0x00, 0x00); }
    else { PrefixFour(0x03, 0x40, 0x00, 0x00, 0x00, 0x00); }
  }

  lemma PrefixRow1(op: Byte)
    requires 0x10 <= op < 0x20
    ensures PrefixMask(op) == TwoByteForbidden(op)
  {
    hide PrefixMask;
    if op < 0x14 { PrefixFour(0x04, 0x41, 0x00, 0x00, 0x00, 0x06); }
    else if op < 0x18 { PrefixFour(0x05, 0x49, 0x06, 0x06, 0x02, 0x06); }
    else if op < 0x1c { PrefixFour(0x06, 0x40, 0x00, 0x00, 0x00, 0x00); }
    else { PrefixFour(0x07, 0x40, 0x00, 0x00, 0x00, 0x00); }
  }

  lemma PrefixRow2(op: Byte)
    requires 0x20 <= op < 0x30
    ensures PrefixMask(op) == TwoByteForbidden(op)
  {
    hide PrefixMask;
    if op < 0x24 { PrefixFour(0x08, 0x40, 0x00, 0x00, 0x00, 0x00); }
    else if op < 0x28 { PrefixFour(0x09, 0x40, 0x00, 0x00, 0x00, 0x00); }
    else if op < 0x2c { PrefixFour(0x0a, 0x4c, 0x06, 0x06, 0x00, 0x06); }
    else { PrefixFour(0x0b, 0x42, 0x00, 0x00, 0x06, 0x06); }
  }

  lemma PrefixRow3(op: Byte)
    requires 0x30 <= op < 0x40
    ensures PrefixMask(op) == TwoByteForbidden(op)
  {
    hide PrefixMask;
    if op < 0x34 { PrefixFour(0x0c, 0x40, 0x00, 0x00, 0x00, 0x00); }
    else if op < 0x38 { PrefixFour(0x0d, 0x40, 0x00, 0x00, 0x00, 0x00); }
    else if op < 0x3c { PrefixFour(0x0e, 0x40, 0x00, 0x00, 0x00, 0x00); }
    else { PrefixFour(0x0f, 0x40, 0x00, 0x00, 0x00, 0x00); }
  }

  lemma PrefixRow4(op: Byte)
    requires 0x40 <= op < 0x50
    ensures PrefixMask(op) == TwoByteForbidden(op)
  {
    hide PrefixMask;
    if op < 0x44 { PrefixFour(0x10, 0x40, 0x00, 0x00, 0x00, 0x00); }
    else if op < 0x48 { PrefixFour(0x11, 0x40, 0x00, 0x00, 0x00, 0x00); }
    else if op < 0x4c { PrefixFour(0x12, 0x40, 0x00, 0x00, 0x00, 0x00); }
    else { PrefixFour(0x13, 0x40, 0x00, 0x00, 0x00, 0x00); }
  }

  lemma PrefixRow5(op: Byte)
    requires 0x50 <= op < 0x60
    ensures PrefixMask(op) == TwoByteForbidden(op)
  {
    hide PrefixMask;
    if op < 0x54 { PrefixFour(0x14, 0x4f, 0x06, 0x00, 0x0a, 0x0a); }
    else if op < 0x58 { PrefixFour(0x15, 0x44, 0x06, 0x06, 0x06, 0x06); }
    else if op < 0x5c { PrefixFour(0x16, 0x53, 0x00, 0x00, 0x00, 0x02); }
    else { PrefixFour(0x17, 0x40, 0x00, 0x00, 0x00, 0x00); }
  }

  lemma PrefixRow6(op: Byte)
    requires 0x60 <= op < 0x70
    ensures PrefixMask(op) == TwoByteForbidden(op)
  {
    hide PrefixMask;
    if op < 0x64 { PrefixFour(0x18, 0x40, 0x00, 0x00, 0x00, 0x00); }
    else if op < 0x68 { PrefixFour(0x19, 0x40, 0x00, 0x00, 0x00, 0x00); }
    else if op < 0x6c { PrefixFour(0x1a, 0x44, 0x06, 0x06, 0x06, 0x06); }
    else { PrefixFour(0x1b, 0x57, 0x07, 0x07, 0x06, 0x02); }
  }

  lemma PrefixRow7(op: Byte)
    requires 0x70 <= op < 0x80
    ensures PrefixMask(op) == TwoByteForbidden(op)
  {
    hide PrefixMask;
    if op < 0x74 { PrefixFour(0x1c, 0x43, 0x00, 0x06, 0x06, 0x06); }
    else if op < 0x78 { PrefixFour(0x1d, 0x5c, 0x06, 0x06, 0x06, 0x0e); }
    else if op < 0x7c { PrefixFour(0x1e, 0x40, 0x00, 0x00, 0x00, 0x00); }
    else { PrefixFour(0x1f, 0x60, 0x05, 0x05, 0x02, 0x02); }
  }

  lemma PrefixRow8(op: Byte)
    requires 0x80 <= op < 0x90
    ensures PrefixMask(op) == TwoByteForbidden(op)
  {
    hide PrefixMask;
    if op < 0x84 { PrefixFour(0x20, 0x40, 0x00, 0x00, 0x00, 0x00); }
    else if op < 0x88 { PrefixFour(0x21, 0x40, 0x00, 0x00, 0x00, 0x00); }
    else if op < 0x8c { PrefixFour(0x22, 0x40, 0x00, 0x00, 0x00, 0x00); }
    else { PrefixFour(0x23, 0x40, 0x00, 0x00, 0x00, 0x00); }
  }

  lemma PrefixRow9(op: Byte)
    requires 0x90 <= op < 0xa0
    ensures PrefixMask(op) == TwoByteForbidden(op)
  {
    hide PrefixMask;
    if op < 0x94 { PrefixFour(0x24, 0x40, 0x00, 0x00, 0x00, 0x00); }
    else if op < 0x98 { PrefixFour(0x25, 0x40, 0x00, 0x00, 0x00, 0x00); }
    else if op < 0x9c { PrefixFour(0x26, 0x40, 0x00, 0x00, 0x00, 0x00); }
    else { PrefixFour(0x27, 0x40, 0x00, 0x00, 0x00, 0x00); }
  }

  lemma PrefixRowa(op: Byte)
    requires 0xa0 <= op < 0xb0
    ensures PrefixMask(op) == TwoByteForbidden(op)
  {
    hide PrefixMask;
    if op < 0xa4 { PrefixFour(0x28, 0x40, 0x00, 0x00, 0x00, 0x00); }
    else if op < 0xa8 { PrefixFour(0x29, 0x40, 0x00, 0x00, 0x00, 0x00); }
    else if op < 0xac { PrefixFour(0x2a, 0x40, 0x00, 0x00, 0x00, 0x00); }
    else { PrefixFour(0x2b, 0x40, 0x00, 0x00, 0x00, 0x00); }
  }

  lemma PrefixRowb(op: Byte)
    requires 0xb0 <= op < 0xc0
    ensures PrefixMask(op) == TwoByteForbidden(op)
  {
    hide PrefixMask;
    if op < 0xb4 { PrefixFour(0x2c, 0x40, 0x00, 0x00, 0x00, 0x00); }
    else if op < 0xb8 { PrefixFour(0x2d, 0x40, 0x00, 0x00, 0x00, 0x00); }
    else if op < 0xbc { PrefixFour(0x2e, 0x64, 0x00, 0x00, 0x04, 0x04); }
    else { PrefixFour(0x2f, 0x66, 0x04, 0x04, 0x04, 0x04); }
  }

  lemma PrefixRowc(op: Byte)
    requires 0xc0 <= op < 0xd0
    ensures PrefixMask(op) == TwoByteForbidden(op)
  {
    hide PrefixMask;
    if op < 0xc4 { PrefixFour(0x30, 0x6e, 0x00, 0x00, 0x00, 0x0e); }
    else if op < 0xc8 { PrefixFour(0x31, 0x6b, 0x06, 0x06, 0x06, 0x00); }
    else if op < 0xcc { PrefixFour(0x32, 0x40, 0x00, 0x00, 0x00, 0x00); }
    else { PrefixFour(0x33, 0x40, 0x00, 0x00, 0x00, 0x00); }
  }

  lemma PrefixRowd(op: Byte)
    requires 0xd0 <= op < 0xe0
    ensures PrefixMask(op) == TwoByteForbidden(op)
  {
    hide PrefixMask;
    if op < 0xd4 { PrefixFour(0x34, 0x6a, 0x05, 0x06, 0x06, 0x06); }
    else if op < 0xd8 { PrefixFour(0x35, 0x46, 0x06, 0x06, 0x01, 0x06); }
    else if op < 0xdc { PrefixFour(0x36, 0x40, 0x00, 0x00, 0x00, 0x00); }
    else { PrefixFour(0x37, 0x40, 0x00, 0x00, 0x00, 0x00); }
  }

  lemma PrefixRowe(op: Byte)
    requires 0xe0 <= op < 0xf0
    ensures PrefixMask(op) == TwoByteForbidden(op)
  {
    hide PrefixMask;
    if op < 0xe4 { PrefixFour(0x38, 0x44, 0x06, 0x06, 0x06, 0x06); }
    else if op < 0xe8 { PrefixFour(0x39, 0x46, 0x06, 0x06, 0x01, 0x06); }
    else if op < 0xec { PrefixFour(0x3a, 0x40, 0x00, 0x00, 0x00, 0x00); }
    else { PrefixFour(0x3b, 0x40, 0x00, 0x00, 0x00, 0x00); }
  }

  lemma PrefixRowf(op: Byte)
    requires 0xf0 <= op
    ensures PrefixMask(op) == TwoByteForbidden(op)
  {
    hide PrefixMask;
    if op < 0xf4 { PrefixFour(0x3c, 0x5b, 0x0d, 0x06, 0x06, 0x06); }
    else if op < 0xf8 { PrefixFour(0x3d, 0x44, 0x06, 0x06, 0x06, 0x06); }
    else if op < 0xfc { PrefixFour(0x3e, 0x40, 0x00, 0x00, 0x00, 0x00); }
    else { PrefixFour(0x3f, 0x40, 0x00, 0x00, 0x00, 0x00); }
  }

  /** Every entry of the prefix table. */
  lemma PrefixTable(op: Byte)
    ensures PrefixMask(op) == TwoByteForbidden(op)
  {
    hide PrefixMask, TwoByteForbidden;
    if op < 0x10 { PrefixRow0(op); } else if op < 0x20 { PrefixRow1(op); } else if op < 0x30 { PrefixRow2(op); }
    else if op < 0x40 { PrefixRow3(op); } else if op < 0x50 { PrefixRow4(op); } else if op < 0x60 { PrefixRow5(op); }
    else if op < 0x70 { PrefixRow6(op); } else if op < 0x80 { PrefixRow7(op); } else if op < 0x90 { PrefixRow8(op); }
    else if op < 0xa0 { PrefixRow9(op); } else if op < 0xb0 { PrefixRowa(op); } else if op < 0xc0 { PrefixRowb(op); }
    else if op < 0xd0 { PrefixRowc(op); } else if op < 0xe0 { PrefixRowd(op); } else if op < 0xf0 { PrefixRowe(op); }
    else { PrefixRowf(op); }
  }
}
