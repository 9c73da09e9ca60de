/** Whole sessions: a template is loaded or copied, operated on any number of times, and rendered. */
module Sessions {
  import opened Names
  import opened Tree
  import opened Render
  import opened Ops
  import opened Runs
  import opened Templates
  import opened Traversal
  import opened Output
  import opened Cursor
  import opened Parsing
  import opened Naming
  import opened Decimal
  import opened Copying
  import opened Cloning
  import opened IntFields

  /** The numbers behind the names: lib_tpl.h, lines 189 to 210. */
  lemma HeaderConstants()
    ensures TPL_OK == 0 && TPL_SECTION_NOT_FOUND_ERROR == -1 && TPL_NO_SECTION_SELECTED_ERROR == -2
    ensures TPL_SYNTAX_ERROR == -3 && TABLE_SIZE == 29 && INITIAL_FIELD_LEN == 31
  {
  }

  /** An operation on the tree, or one that formats an integer for it. */
  datatype Command = Tree(op: Op) | SetInt(key: string, val: int) | SetUint(key: string, num: nat)

  /** Keys are C strings of at least one character, numbers fit their C types. */
  predicate Callable(command: Command) {
    match command
    case Tree(SelectOp(key)) => key != ""
    case Tree(SetFieldOp(key, _)) => key != ""
    case Tree(SetGlobalOp(key, _)) => key != ""
    case Tree(SetSectionOp(key, _)) => key != ""
    case Tree(_) => true
    case SetInt(key, val) => key != "" && INT_MIN <= val <= INT_MAX
    case SetUint(key, num) => key != "" && num <= UINT_MAX
  }

  /** What a command does to the tree. */
  function OpOf(command: Command): Op
    requires Callable(command)
  {
    match command
    case Tree(op) => op
    case SetInt(key, val) => SetFieldOp(key, DecimalForm(val))
    case SetUint(key, num) => SetFieldOp(key, Text(AsInt(num), false))
  }

  /** An integer is stored as its one canonical text; an unsigned number beyond 2^31 as its distance to 2^32. */
  lemma {:induction false} IntCommands(key: string, val: int, num: nat)
    requires Callable(SetInt(key, val)) && Callable(SetUint(key, num))
    ensures var op := OpOf(SetInt(key, val));
      op.SetFieldOp? && op.key == key && SignedCanonical(op.val) && IntValue(op.val) == val
    ensures var op := OpOf(SetUint(key, num));
      op.SetFieldOp? && op.key == key && Canonical(op.val)
      && Value(op.val) == if num <= 0x8000_0000 then num else 0x1_0000_0000 - num
  {
    hide Digits, DecimalForm, Canonical, SignedCanonical, Value, IntValue;
    DecimalRead(val);
    UnsignedIff(num);
    DigitsRead(num);
    if num > 0x8000_0000 { DigitsRead(0x1_0000_0000 - num); }
  }

  function OpsOf(commands: seq<Command>): (r: seq<Op>)
    requires forall c <- commands :: Callable(c)
    ensures |r| == |commands| && forall i | 0 <= i < |r| :: r[i] == OpOf(commands[i])
  {
    seq(|commands|, i requires 0 <= i < |commands| => OpOf(commands[i]))
  }

  /** The structure follows the tree, whatever the operation. */
  method Apply(t: Template, command: Command) returns (code: int)
    requires t.Ready() && Callable(command) && Allowed(t.Abs(), OpOf(command))
    modifies t.repr, LinksOf(t.repr)
    ensures t.Ready() && t.repr == old(t.repr)
    ensures AllSel(old(t.Abs())) && (t.Abs(), code) == Step(old(t.Abs()), OpOf(command))
    ensures forall l | l in LinksOf(t.repr) :: l in old(LinksOf(t.repr)) || fresh(l)
  {
    hide Template.Ready, Template.Abs, Template.Valid, Select, Deselect, Append, Ops.SetField, Ops.SetSection,
      SetGlobal, Ops.Reset, DecimalForm, Text;
    t.ReadyFacts();
    code := TPL_OK;
    match command {
      case Tree(op) => code := ApplyOp(t, op);
      case SetInt(key, val) => SetFieldInt(t, key, val);
      case SetUint(key, num) => SetFieldUint(t, key, num);
    }
  }

  method ApplyOp(t: Template, op: Op) returns (code: int)
    requires t.Ready() && Callable(Tree(op)) && Allowed(t.Abs(), op)
    modifies t.repr, LinksOf(t.repr)
    ensures t.Ready() && t.repr == old(t.repr)
    ensures AllSel(old(t.Abs())) && (t.Abs(), code) == Step(old(t.Abs()), op)
    ensures forall l | l in LinksOf(t.repr) :: l in old(LinksOf(t.repr)) || fresh(l)
  {
    hide Template.Ready, Template.Abs, Template.Valid, Select, Deselect, Append, Ops.SetField, Ops.SetSection,
      SetGlobal, Ops.Reset;
    t.ReadyFacts();
    code := TPL_OK;
    match op {
      case SelectOp(key) => code := t.SelectSection(key);
      case DeselectOp => code := t.DeselectSection();
      case SetFieldOp(key, val) => t.SetFieldReady(key, val);
      case SetGlobalOp(key, val) => SetFieldEverywhere(t, key, val);
      case AppendOp => code := t.AppendSection();
      case SetSectionOp(key, val) => code := t.SetSection(key, val);
      case ResetOp => ResetTemplate(t);
    }
  }

  /** A run of the structure is a run of its tree, and ends in a template like the one it began with: every
      tail pointer at the end of its chain, no link shared, every parent right. */
  method ApplyAll(t: Template, commands: seq<Command>)
    requires t.Ready() && (forall c <- commands :: Callable(c)) && AllowedRun(t.Abs(), OpsOf(commands))
    modifies t.repr, LinksOf(t.repr)
    ensures t.Ready() && t.repr == old(t.repr) && t.Abs() == Run(old(t.Abs()), OpsOf(commands))
    ensures Tidy(t.repr) && Parented(t.repr)
    ensures forall l | l in LinksOf(t.repr) :: l in old(LinksOf(t.repr)) || fresh(l)
  {
    ghost var ops := OpsOf(commands);
    hide Template.Ready, Template.Abs, Template.Valid, Step, Allowed, Callable, OpOf, Tidy, Parented;
    var k := 0;
    while k < |commands|
      invariant 0 <= k <= |commands| && t.Ready() && t.repr == old(t.repr)
      invariant AllowedRun(t.Abs(), ops[k..]) && Run(t.Abs(), ops[k..]) == Run(old(t.Abs()), ops)
      invariant forall l | l in LinksOf(t.repr) :: l in old(LinksOf(t.repr)) || fresh(l)
    {
      assert ops[k..][0] == ops[k] && ops[k..][1..] == ops[k + 1..];
      var code := Apply(t, commands[k]);
      k := k + 1;
    }
    TidyWhenReady(t);
  }

  lemma TidyWhenReady(t: Template)
    requires t.Ready()
    ensures Tidy(t.repr) && Parented(t.repr) && Placed(t.Abs())
  {
  }

  /** A buffer of the measured length, filled. */
  method Rendered(t: Template) returns (content: string)
    requires t.Ready()
    ensures content == Content(t.Abs())
  {
    hide Template.Ready, Template.Abs, Template.Valid, Content, Placed, Tidy, Parented;
    TidyWhenReady(t);
    LinksExist(t.repr);
    var len := Length(t);
    var buffer := new char[len + 1];
    GetContent(t, buffer, 0);
    content := buffer[..len];
  }

  /** From a template text and a list of operations to the rendered content. */
  method Session(src: string, commands: seq<Command>) returns (code: int, content: string)
    requires NamesOk(src) && forall c <- commands :: Callable(c)
    requires Parse(src).Some? ==> AllowedRun(Parse(src).value, OpsOf(commands))
    ensures match Parse(src)
      case None => code == TPL_SYNTAX_ERROR && content == ""
      case Some(a) => code == TPL_OK && content == Content(Run(a, OpsOf(commands)))
  {
    hide Template.Ready, Template.Abs, Template.Valid, Content, Parse, NamesOk, Run, AllowedRun, Building, Callable,
      OpsOf, Tidy, Parented;
    var t := NewSection(null);
    code := Load(t, src);
    content := "";
    if code == TPL_OK {
      ApplyAll(t, commands);
      content := Rendered(t);
    }
  }

  /** Working with a copy leaves the original as it is and renders what the original would. */
  method CopySession(src: Template, commands: seq<Command>) returns (dst: Template, content: string)
    requires src.Ready() && Named(src.Abs())
    requires (forall c <- commands :: Callable(c)) && AllowedRun(src.Abs(), OpsOf(commands))
    ensures src.Ready() && src.Abs() == old(src.Abs()) && unchanged(src.repr) && unchanged(LinksOf(src.repr))
    ensures dst.Ready() && fresh(dst.repr) && forall l | l in LinksOf(dst.repr) :: fresh(l)
    ensures content == Content(Run(src.Abs(), OpsOf(commands)))
  {
    hide Template.Ready, Template.Abs, Template.Valid, Content, Run, AllowedRun, Building, Callable, OpsOf, Tidy,
      Parented, Named, CopyOf;
    LinksExist(src.repr);
    RunnableCopy(src, OpsOf(commands));
    dst := NewSection(null);
    Copy(dst, src);
    ApplyAll(dst, commands);
    LinksExist(dst.repr);
    content := Rendered(dst);
  }

  lemma RunnableCopy(src: Template, ops: seq<Op>)
    requires src.Ready() && AllowedRun(src.Abs(), ops)
    ensures AllowedRun(CopyOf(src.Abs()), ops)
    ensures Content(Run(CopyOf(src.Abs()), ops)) == Content(Run(src.Abs(), ops))
  {
    CopyRunsAlike(src.Abs(), ops, []);
  }
}
