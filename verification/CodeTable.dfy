/**
 The default instruction code table (section 5.6 of RFC 3284) and the encoder's choice of
 single and double opcodes from it.
 */
module CodeTable {
  import opened Bytes

  const NOOP: nat := 0
  const ADD: nat := 1
  const RUN: nat := 2
  const CPY: nat := 3  // CPY + mode, for modes 0 to 8

  const MIN_MATCH: nat := 4

  /** One row of the table; a size of zero means that the size follows the opcode. */
  datatype DInst = DInst(type1: nat, size1: nat, type2: nat, size2: nat)

  const EMPTY_ROW := DInst(NOOP, 0, NOOP, 0)

  /** Row `code` of the table, as laid out in the RFC. */
  function Row(code: byte): DInst {
    if code == 0 then DInst(RUN, 0, NOOP, 0)
    else if code <= 18 then DInst(ADD, code - 1, NOOP, 0)
    else if code <= 162 then
      var k := code - 19;
      DInst(CPY + k / 16, if k % 16 == 0 then 0 else k % 16 + 3, NOOP, 0)
    else if code <= 234 then
      var k := code - 163;
      DInst(ADD, k % 12 / 3 + 1, CPY + k / 12, k % 3 + 4)
    else if code <= 246 then
      var k := code - 235;
      DInst(ADD, k % 4 + 1, CPY + 6 + k / 4, 4)
    else DInst(CPY + (code - 247), 4, ADD, 1)
  }

  // ----- building the table

  /** The parameters of the default table (`__rfc3284_code_table_desc`). */
  const ADD_SIZES: nat := 17
  const NEAR_MODES: nat := 4
  const SAME_MODES: nat := 3
  const CPY_SIZES: nat := 15
  const ADDCOPY_ADD_MAX: nat := 4
  const ADDCOPY_NEAR_CPY_MAX: nat := 6
  const ADDCOPY_SAME_CPY_MAX: nat := 4
  const COPYADD_ADD_MAX: nat := 1
  const COPYADD_NEAR_CPY_MAX: nat := 4
  const COPYADD_SAME_CPY_MAX: nat := 4

  /** Rows before `d` are as in the RFC, the rest is untouched. */
  ghost predicate Filled(tbl: array<DInst>, d: nat)
    reads tbl
  {
    && tbl.Length == 256 && d <= 256
    && (forall k: byte :: k < d ==> tbl[k] == Row(k))
    && (forall k :: d <= k < 256 ==> tbl[k] == EMPTY_ROW)
  }

  method BuildSingles(tbl: array<DInst>) returns (d: nat)
    requires Filled(tbl, 0)
    modifies tbl
    ensures d == 163 && Filled(tbl, d)
  {
    tbl[0] := tbl[0].(type1 := RUN);
    tbl[1] := tbl[1].(type1 := ADD);
    d := 2;
    for size1 := 1 to ADD_SIZES + 1
      invariant d == size1 + 1 && Filled(tbl, d)
    {
      tbl[d] := tbl[d].(type1 := ADD, size1 := size1);
      d := d + 1;
    }
    for mode := 0 to 2 + NEAR_MODES + SAME_MODES
      invariant d == 19 + 16 * mode && Filled(tbl, d)
    {
      tbl[d] := tbl[d].(type1 := CPY + mode);
      d := d + 1;
      for size1 := MIN_MATCH to MIN_MATCH + CPY_SIZES
        invariant d == 19 + 16 * mode + size1 - 3 && Filled(tbl, d)
      {
        tbl[d] := tbl[d].(type1 := CPY + mode, size1 := size1);
        d := d + 1;
      }
    }
  }

  /** Where the ADD-COPY rows for a copy mode and an ADD size start. */
  function AddCopyStart(mode: nat, size1: nat): nat
    requires size1 >= 1
  {
    if mode < 6 then 163 + mode * 12 + 3 * (size1 - 1) else 235 + (mode - 6) * 4 + (size1 - 1)
  }

  method BuildAddCopies(tbl: array<DInst>, start: nat) returns (d: nat)
    requires start == 163 && Filled(tbl, start)
    modifies tbl
    ensures d == 247 && Filled(tbl, d)
  {
    d := start;
    for mode := 0 to 2 + NEAR_MODES + SAME_MODES
      invariant d == AddCopyStart(mode, 1) && Filled(tbl, d)
    {
      for size1 := 1 to ADDCOPY_ADD_MAX + 1
        invariant d == AddCopyStart(mode, size1) && Filled(tbl, d)
      {
        var max := if mode < 2 + NEAR_MODES then ADDCOPY_NEAR_CPY_MAX else ADDCOPY_SAME_CPY_MAX;
        for size2 := MIN_MATCH to max + 1
          invariant d == AddCopyStart(mode, size1) + size2 - 4 && Filled(tbl, d)
        {
          AddCopyRow(mode, size1, size2);
          tbl[d] := DInst(ADD, size1, CPY + mode, size2);
          d := d + 1;
        }
      }
    }
  }

  method BuildCopyAdds(tbl: array<DInst>, start: nat) returns (d: nat)
    requires start == 247 && Filled(tbl, start)
    modifies tbl
    ensures d == 256 && Filled(tbl, d)
  {
    d := start;
    for mode := 0 to 2 + NEAR_MODES + SAME_MODES
      invariant d == 247 + mode && Filled(tbl, d)
    {
      var max := if mode < 2 + NEAR_MODES then COPYADD_NEAR_CPY_MAX else COPYADD_SAME_CPY_MAX;
      for size1 := MIN_MATCH to max + 1
        invariant d == 247 + mode + size1 - 4 && Filled(tbl, d)
      {
        for size2 := 1 to COPYADD_ADD_MAX + 1
          invariant d == 247 + mode + size1 - 4 + size2 - 1 && Filled(tbl, d)
        {
          tbl[d] := DInst(CPY + mode, size1, ADD, size2);
          d := d + 1;
        }
      }
    }
  }

  /** xd3_build_code_table on the default description: 256 rows, exactly those of the RFC. */
  method BuildCodeTable() returns (tbl: array<DInst>)
    ensures fresh(tbl) && tbl.Length == 256
    ensures forall k: byte :: tbl[k] == Row(k)
  {
    tbl := new DInst[256](i => EMPTY_ROW);
    var d := BuildSingles(tbl);
    d := BuildAddCopies(tbl, d);
    d := BuildCopyAdds(tbl, d);
  }

  // ----- choosing opcodes

  /** The single opcode of an instruction. */
  function SingleCode(typ: nat, size: nat): (code: byte)
    requires typ == ADD || typ == RUN || CPY <= typ < CPY + 9
  {
    if typ == RUN then 0
    else if typ == ADD then if size <= 17 then 1 + size else 1
    else 19 + 16 * (typ - CPY) + if 4 <= size <= 18 then size - 3 else 0
  }

  /** The double opcode for two adjacent instructions; 0 when there is none. */
  function DoubleCode(type1: nat, size1: nat, type2: nat, size2: nat): (code: byte)
    requires type2 == ADD || type2 == RUN || CPY <= type2 < CPY + 9
  {
    if type2 == ADD && size2 == 1 && size1 == 4 && CPY <= type1 < CPY + 9 then 247 + (type1 - CPY)
    else if type2 >= CPY && 4 <= size2 <= 18 && type1 == ADD && 1 <= size1 <= 4 then
      var mode := type2 - CPY;
      if size2 <= 6 && mode <= 5 then 163 + mode * 12 + 3 * (size1 - 1) + (size2 - 4)
      else if size2 == 4 && mode >= 6 then 235 + (mode - 6) * 4 + (size1 - 1)
      else 0
    else 0
  }

  /** The single opcode decodes to the instruction, with its size when the table has that size. */
  lemma SingleCodeRow(typ: nat, size: nat)
    requires typ == ADD || typ == RUN || CPY <= typ < CPY + 9
    ensures var r := Row(SingleCode(typ, size));
            r.type1 == typ && r.type2 == NOOP && (r.size1 == 0 || r.size1 == size)
    ensures Row(SingleCode(typ, size)).size1 == 0 ==>
            size == 0 || forall k: byte :: Row(k) != DInst(typ, size, NOOP, 0)
  {
    var code := SingleCode(typ, size);
    if CPY <= typ {
      CopyRow(typ - CPY, if 4 <= size <= 18 then size - 3 else 0);
    }
    if Row(code).size1 == 0 && size != 0 {
      forall k: byte ensures Row(k) != DInst(typ, size, NOOP, 0) {
      }
    }
  }

  lemma CopyRow(mode: nat, r: nat)
    requires mode < 9 && r < 16
    ensures (16 * mode + r) / 16 == mode && (16 * mode + r) % 16 == r
  {
  }

  /** A double opcode is chosen exactly when some row of the table pairs the two instructions, and
      then it is such a row. */
  lemma DoubleCodeRow(type1: nat, size1: nat, type2: nat, size2: nat)
    requires type1 == ADD || type1 == RUN || CPY <= type1 < CPY + 9
    requires type2 == ADD || type2 == RUN || CPY <= type2 < CPY + 9
    ensures var code := DoubleCode(type1, size1, type2, size2);
            && (code != 0 ==> Row(code) == DInst(type1, size1, type2, size2))
            && (code == 0 ==> forall k: byte :: Row(k) != DInst(type1, size1, type2, size2))
  {
    var code := DoubleCode(type1, size1, type2, size2);
    if code != 0 && type2 >= CPY {
      AddCopyRow(type2 - CPY, size1, size2);
    }
    if code == 0 {
      forall k: byte ensures Row(k) != DInst(type1, size1, type2, size2) {
        RowShape(k);
      }
    }
  }

  lemma AddCopyRow(mode: nat, size1: nat, size2: nat)
    requires mode < 9 && 1 <= size1 <= 4 && 4 <= size2 <= 6 && (mode >= 6 ==> size2 == 4)
    ensures AddCopyStart(mode, size1) + size2 - 4 < 247
    ensures Row(AddCopyStart(mode, size1) + size2 - 4) == DInst(ADD, size1, CPY + mode, size2)
  {
    if mode < 6 {
      var k := mode * 12 + 3 * (size1 - 1) + (size2 - 4);
      assert k / 12 == mode && k % 12 == 3 * (size1 - 1) + (size2 - 4);
      assert k == 3 * (4 * mode + size1 - 1) + (size2 - 4);
    }
  }

  /** Rows that pair two instructions: what they may hold. */
  lemma RowShape(k: byte)
    ensures var r := Row(k);
            r.type2 != NOOP ==>
              || (r.type1 == ADD && 1 <= r.size1 <= 4 && CPY <= r.type2 < CPY + 6 && 4 <= r.size2 <= 6)
              || (r.type1 == ADD && 1 <= r.size1 <= 4 && CPY + 6 <= r.type2 < CPY + 9 && r.size2 == 4)
              || (CPY <= r.type1 < CPY + 9 && r.size1 == 4 && r.type2 == ADD && r.size2 == 1)
  {
  }
}
