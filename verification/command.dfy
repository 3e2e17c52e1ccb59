/**
 * What the shell reads off a command's token list before it spawns
 * anything: the argument vector handed to `execvp` (`buildArgv`), the
 * argument count and its cap (`executeOtherCommands`), and the files
 * standard input and output are redirected to (the scans at the top of
 * `runInForeground` and `runInBackground`).
 */
module Command {

  const InputOp := "<"
  const OutputOp := ">"
  const BackgroundOp := "&"

  /** Largest argument count the shell accepts. */
  const MaxArguments := 512

  /** Where a background job's unredirected streams go. */
  const DevNull := "/dev/null"

  predicate IsRedirect(t: string) {
    t == InputOp || t == OutputOp
  }

  predicate IsOperator(t: string) {
    IsRedirect(t) || t == BackgroundOp
  }

  /**
   * The arguments passed to the program: the longest prefix of the tokens
   * that holds no `<`, `>` or `&`.
   */
  function Argv(ts: seq<string>): (argv: seq<string>)
    ensures |argv| <= |ts| && argv == ts[..|argv|]
    ensures forall i :: 0 <= i < |argv| ==> !IsOperator(argv[i])
    ensures |argv| == |ts| || IsOperator(ts[|argv|])
  {
    if |ts| == 0 || IsOperator(ts[0]) then [] else [ts[0]] + Argv(ts[1..])
  }

  /** Position of the first `<` or `>`, or the length when there is none. */
  function FirstRedirect(ts: seq<string>): (k: nat)
    ensures k <= |ts|
    ensures forall i :: 0 <= i < k ==> !IsRedirect(ts[i])
    ensures k == |ts| || IsRedirect(ts[k])
  {
    if |ts| == 0 || IsRedirect(ts[0]) then 0 else 1 + FirstRedirect(ts[1..])
  }

  /** Number of tokens other than `&`. */
  function NonAmpersand(xs: seq<string>): nat {
    if |xs| == 0 then 0
    else NonAmpersand(xs[..|xs| - 1]) + (if xs[|xs| - 1] == BackgroundOp then 0 else 1)
  }

  function Min(a: nat, b: nat): nat {
    if a < b then a else b
  }

  /** The argument count: tokens other than `&` before the first redirection. */
  function ArgCount(ts: seq<string>): nat {
    NonAmpersand(ts[..FirstRedirect(ts)])
  }

  /**
   * The counting loop of `executeOtherCommands`: a `redirection` flag that
   * switches on at the first `<` or `>` and stays on, a count of the non-`&`
   * tokens seen while it is off, and the last token seen.
   */
  method CountArguments(ts: seq<string>) returns (count: nat, tail: string)
    requires |ts| > 0
    ensures count == ArgCount(ts)
    ensures tail == ts[|ts| - 1]
  {
    var redirection := false;
    count, tail := 0, "";
    var i := 0;
    while i < |ts|
      invariant i <= |ts|
      invariant redirection <==> FirstRedirect(ts) < i
      invariant count == NonAmpersand(ts[..Min(i, FirstRedirect(ts))])
      invariant i > 0 ==> tail == ts[i - 1]
    {
      if IsRedirect(ts[i]) {
        redirection := true;
      }
      if !redirection && ts[i] != BackgroundOp {
        count := count + 1;
      }
      assert ts[..i + 1][..i] == ts[..i];
      tail := ts[i];
      i := i + 1;
    }
  }

  lemma {:induction false} NonAmpersandAppend(a: seq<string>, b: seq<string>)
    ensures NonAmpersand(a + b) == NonAmpersand(a) + NonAmpersand(b)
    decreases |b|
  {
    if |b| > 0 {
      assert (a + b)[..|a + b| - 1] == a + b[..|b| - 1];
      NonAmpersandAppend(a, b[..|b| - 1]);
    } else {
      assert a + b == a;
    }
  }

  lemma {:induction false} NonAmpersandBounds(xs: seq<string>)
    ensures NonAmpersand(xs) <= |xs|
    ensures NonAmpersand(xs) == |xs| <==> forall i :: 0 <= i < |xs| ==> xs[i] != BackgroundOp
    ensures NonAmpersand(xs) == 0 <==> forall i :: 0 <= i < |xs| ==> xs[i] == BackgroundOp
  {
    if |xs| > 0 {
      var init := xs[..|xs| - 1];
      NonAmpersandBounds(init);
      assert forall i :: 0 <= i < |init| ==> init[i] == xs[i];
    }
  }

  /** The count splits into the argument vector and the tokens after it. */
  lemma ArgCountSplit(ts: seq<string>)
    ensures |Argv(ts)| <= FirstRedirect(ts)
    ensures ArgCount(ts) == |Argv(ts)| + NonAmpersand(ts[|Argv(ts)|..FirstRedirect(ts)])
  {
    var a := Argv(ts);
    var k := FirstRedirect(ts);
    assert ts[..k] == a + ts[|a|..k];
    NonAmpersandAppend(a, ts[|a|..k]);
    NonAmpersandBounds(a);
  }

  /**
   * `buildArgv` never writes past the array `executeOtherCommands` sizes
   * from the count, so the closing NULL slot is never overwritten.
   */
  lemma ArgvFitsArray(ts: seq<string>)
    ensures |Argv(ts)| <= ArgCount(ts)
  {
    ArgCountSplit(ts);
  }

  /** Every slot below the count is filled by `buildArgv`. */
  predicate ArgvDefined(ts: seq<string>) {
    |Argv(ts)| == ArgCount(ts)
  }

  /**
   * The vector is fully filled exactly when every token between the end of
   * the arguments and the first redirection is `&`.
   */
  lemma ArgvDefinedIff(ts: seq<string>)
    ensures ArgvDefined(ts) <==>
              forall j :: |Argv(ts)| <= j < FirstRedirect(ts) ==> ts[j] == BackgroundOp
  {
    ArgCountSplit(ts);
    var a := Argv(ts);
    var k := FirstRedirect(ts);
    NonAmpersandBounds(ts[|a|..k]);
    assert forall j :: |a| <= j < k ==> ts[j] == ts[|a|..k][j - |a|];
  }

  /** A command whose only `&` is its last token fills the vector. */
  lemma FinalAmpersandDefined(ts: seq<string>)
    requires forall j :: 0 <= j < |ts| - 1 ==> ts[j] != BackgroundOp
    ensures ArgvDefined(ts)
  {
    ArgvDefinedIff(ts);
    var a := Argv(ts);
    var k := FirstRedirect(ts);
    forall j | |a| <= j < k
      ensures ts[j] == BackgroundOp
    {
      if j == |a| {
        assert IsOperator(ts[j]) && !IsRedirect(ts[j]);
      } else {
        assert false;
      }
    }
  }

  /** One slot of the `argv` array. */
  datatype Slot = Arg(value: string) | Unset | Null

  /**
   * The array as the shell leaves it: count + 1 slots, NULL written at
   * index count, then the first slots filled by `buildArgv`; any slot in
   * between is never written.
   */
  function ArgvSlots(ts: seq<string>): (v: seq<Slot>)
    ensures |v| == ArgCount(ts) + 1
    ensures v[ArgCount(ts)] == Null
    ensures |Argv(ts)| <= ArgCount(ts)
    ensures forall k :: 0 <= k < |Argv(ts)| ==> v[k] == Arg(Argv(ts)[k])
  {
    ArgvFitsArray(ts);
    var a := Argv(ts);
    var count := ArgCount(ts);
    seq(count + 1, k requires 0 <= k <= count =>
      if k < |a| then Arg(a[k]) else if k == count then Null else Unset)
  }

  /** An `execvp` argument vector: arguments, then exactly one closing NULL. */
  predicate WellFormedVector(v: seq<Slot>) {
    && |v| > 0
    && v[|v| - 1] == Null
    && forall k :: 0 <= k < |v| - 1 ==> v[k].Arg?
  }

  /** The vector sized by the arguments actually collected. */
  function ExecVector(ts: seq<string>): (v: seq<Slot>)
    ensures WellFormedVector(v)
    ensures |v| == |Argv(ts)| + 1
    ensures forall k :: 0 <= k < |Argv(ts)| ==> v[k].value == Argv(ts)[k]
  {
    var a := Argv(ts);
    seq(|a| + 1, k requires 0 <= k <= |a| => if k < |a| then Arg(a[k]) else Null)
  }

  /** The array is well formed exactly when every counted slot is filled. */
  lemma SlotsWellFormedIff(ts: seq<string>)
    ensures WellFormedVector(ArgvSlots(ts)) <==> ArgvDefined(ts)
    ensures ArgvSlots(ts) == ExecVector(ts) <==> ArgvDefined(ts)
  {
    ArgvFitsArray(ts);
    var v := ArgvSlots(ts);
    if !ArgvDefined(ts) {
      assert v[|Argv(ts)|] == Unset;
      assert |ArgvSlots(ts)| != |ExecVector(ts)|;
    }
  }

  /** `echo a & b`: the count is 3, yet only two arguments are written. */
  lemma UnsetSlotExample()
    ensures ArgCount(["echo", "a", "&", "b"]) == 3
    ensures ArgvSlots(["echo", "a", "&", "b"])[2] == Unset
    ensures !ArgvDefined(["echo", "a", "&", "b"])
  {
    var ts := ["echo", "a", "&", "b"];
    assert FirstRedirect(ts[3..]) == 1 + FirstRedirect(ts[4..]);
    assert FirstRedirect(ts) == 4;
    assert ts[..4] == ts;
    assert ts[..3] == ["echo", "a", "&"];
    assert ts[..2] == ["echo", "a"];
    assert ts[..1] == ["echo"];
    assert ts[..3][..2] == ts[..2] && ts[..2][..1] == ts[..1] && ts[..1][..0] == [];
    assert NonAmpersand(ts[..1]) == 1;
    assert NonAmpersand(ts[..2]) == 2;
    assert NonAmpersand(ts[..3]) == 2;
    assert NonAmpersand(ts) == 3;
    assert ArgCount(ts) == 3;
    assert Argv(ts[2..]) == [];
    assert Argv(ts) == ["echo", "a"];
  }

  /** Where a standard stream is connected. */
  datatype Redirect = Terminal | File(path: string)

  /**
   * `ts[i]` is `op`, the token after it is `path`, and no later `op` has a
   * token after it.
   */
  predicate TargetAt(ts: seq<string>, op: string, i: int, path: string) {
    && 0 <= i < |ts| - 1
    && ts[i] == op
    && ts[i + 1] == path
    && forall j :: i < j < |ts| - 1 ==> ts[j] != op
  }

  /**
   * Position of the last `op` that has a token after it, or -1 when there
   * is none.
   */
  function LastOpIndex(ts: seq<string>, op: string): (k: int)
    ensures k == -1 || (0 <= k < |ts| - 1 && ts[k] == op)
    ensures forall j :: k < j < |ts| - 1 ==> ts[j] != op
    decreases |ts|
  {
    if |ts| < 2 then -1
    else if ts[|ts| - 2] == op then |ts| - 2
    else LastOpIndex(ts[..|ts| - 1], op)
  }

  /**
   * The target of the last `op` that has a token after it: that token; the
   * terminal when no `op` has a token after it.
   */
  function LastTarget(ts: seq<string>, op: string): (r: Redirect)
    ensures r.Terminal? <==> forall j :: 0 <= j < |ts| - 1 ==> ts[j] != op
    ensures r.File? ==> exists i :: TargetAt(ts, op, i, r.path)
  {
    var k := LastOpIndex(ts, op);
    if k < 0 then Terminal
    else
      assert TargetAt(ts, op, k, ts[k + 1]);
      File(ts[k + 1])
  }

  /** One step of the scan: the pair at `i` either names a new target or not. */
  lemma LastTargetStep(ts: seq<string>, op: string, i: nat)
    requires i < |ts|
    requires i == |ts| - 1 ==> ts[i] != op
    ensures LastTarget(ts[..Min(i + 2, |ts|)], op) ==
              if ts[i] == op then File(ts[i + 1]) else LastTarget(ts[..i + 1], op)
  {
    if i + 1 < |ts| {
      assert ts[..i + 2][..i + 1] == ts[..i + 1];
    }
  }

  /**
   * The redirection scan: every `<` (or `>`) overwrites the input (or
   * output) file with the token after it, so the last one wins. A command
   * ending in `<` or `>` would read past the tokens and is excluded.
   */
  method ScanRedirections(ts: seq<string>) returns (input: Redirect, output: Redirect)
    requires |ts| > 0 ==> !IsRedirect(ts[|ts| - 1])
    ensures input == LastTarget(ts, InputOp)
    ensures output == LastTarget(ts, OutputOp)
  {
    input, output := Terminal, Terminal;
    var i := 0;
    while i < |ts|
      invariant i <= |ts|
      invariant input == LastTarget(ts[..Min(i + 1, |ts|)], InputOp)
      invariant output == LastTarget(ts[..Min(i + 1, |ts|)], OutputOp)
    {
      LastTargetStep(ts, InputOp, i);
      LastTargetStep(ts, OutputOp, i);
      if ts[i] == InputOp {
        input := File(ts[i + 1]);
      }
      if ts[i] == OutputOp {
        output := File(ts[i + 1]);
      }
      i := i + 1;
    }
  }

  /** A background job's stream: the named file, or `/dev/null` if none. */
  function BackgroundDefault(r: Redirect): (d: Redirect)
    ensures d.File?
    ensures r.File? ==> d == r
    ensures r.Terminal? ==> d == File(DevNull)
  {
    if r.Terminal? then File(DevNull) else r
  }
}
