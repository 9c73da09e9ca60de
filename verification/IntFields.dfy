/** Setting a field to an integer. */
module IntFields {
  import opened Search
  import opened Names
  import opened Tree
  import opened Ops
  import opened Templates
  import opened Decimal

  /** Formats val in the block of a field's current value: as long as that value, or 31 characters. */
  method FormatInt(current: string, size: nat, val: int, signed: bool) returns (text: string)
    requires INT_MIN <= val <= INT_MAX && Holds(size, |current|)
    ensures text == Text(val, signed)
  {
    var len := |current|;
    if len < INITIAL_FIELD_LEN { len := INITIAL_FIELD_LEN; }
    var buffer := new char[size];
    TenDigits(val);
    hide Digits;
    len := IntToString(buffer, 0, len, val, signed);
    text := buffer[..len];
  }

  method SetFieldInt(t: Template, key: string, val: int)
    requires t.Ready() && key != "" && INT_MIN <= val <= INT_MAX
    modifies t.repr`cells, t.repr`room
    ensures t.Ready()
    ensures HasPath(old(t.Abs()), old(t.sel)) && t.Abs() == Ops.SetField(old(t.Abs()), key, DecimalForm(val))
  {
    SetFormatted(t, key, val, true);
  }

  method SetFieldUint(t: Template, key: string, val: nat)
    requires t.Ready() && key != "" && val <= UINT_MAX
    modifies t.repr`cells, t.repr`room
    ensures t.Ready()
    ensures HasPath(old(t.Abs()), old(t.sel))
    ensures t.Abs() == Ops.SetField(old(t.Abs()), key, Text(AsInt(val), false))
    ensures val <= 0x8000_0000 ==> t.Abs() == Ops.SetField(old(t.Abs()), key, Digits(val))
  {
    UnsignedIff(val);
    SetFormatted(t, key, AsInt(val), false);
  }

  method SetFormatted(t: Template, key: string, val: int, signed: bool)
    requires t.Ready() && key != "" && INT_MIN <= val <= INT_MAX
    modifies t.repr`cells, t.repr`room
    ensures t.Ready()
    ensures HasPath(old(t.Abs()), old(t.sel)) && t.Abs() == Ops.SetField(old(t.Abs()), key, Text(val, signed))
  {
    hide Template.Ready, Template.Valid, Template.SelOk, Template.Abs, Template.At, Text, Digits, SetCell,
      Replace, HasPath, Sub;
    LinksExist(t.repr);
    t.ReadyFacts();
    t.tpl.AbsKeys();
    var found := t.tpl.FindField(key);
    if found.Some? {
      LookupSpec(CellKeys(t.tpl.cells), key);
      RoomAt(t, found.value);
      var text := FormatInt(t.tpl.cells[found.value].val, t.tpl.room[found.value], val, signed);
      t.SetFieldReady(key, text);
    } else {
      MissedField(t.Abs(), key, Text(val, signed));
    }
  }

  lemma RoomAt(t: Template, c: nat)
    requires t.Ready() && c < |t.tpl.cells|
    ensures |t.tpl.room| == |t.tpl.cells| && Holds(t.tpl.room[c], |t.tpl.cells[c].val|)
  {
    hide Tidy, Parented, Template.Valid, Template.SelOk, Template.Abs, Template.At, Sub, HasPath;
    t.ReadyFacts();
    RoomWhenTidy(t.repr, t.tpl);
  }

  lemma MissedField(t: Tpl, key: string, val: string)
    requires HasPath(t, t.sel) && Lookup(CellKeys(Sub(t, t.sel).cells), key) == None
    ensures SetField(t, key, val) == t
  {
    ReplaceSame(t, t.sel);
  }
}
