/** The trial's configuration as the host runner supplies it, the defaults the
    plugin fills in before rendering, and the display order of the questions. */
module Survey {
  import opened JsText

  datatype Option<T> = None | Some(value: T)

  /** One entry of `trial.questions`. A parameter the runner left undefined
      (or set to null) is `None`. */
  datatype Question = Question(
    prompt: JsString,
    placeholder: JsString,
    rows: Option<int>,
    columns: Option<int>,
    required: bool,
    name: JsString,
    value: Option<JsString>)

  /** JavaScript falsiness of a number parameter: undefined, null or 0. */
  predicate FalsyInt(x: Option<int>) {
    x.None? || x.value == 0
  }

  /** JavaScript falsiness of a string parameter: undefined, null or "". */
  predicate FalsyText(x: Option<JsString>) {
    x.None? || x.value == []
  }

  /** The three `||=` assignments applied to one question: rows become 1,
      columns 40 and value "" when they are falsy. */
  function WithDefaults(q: Question): (r: Question)
    ensures r.rows.Some? && r.rows.value != 0
    ensures r.columns.Some? && r.columns.value != 0
    ensures r.value.Some?
    ensures r.prompt == q.prompt && r.placeholder == q.placeholder
    ensures r.required == q.required && r.name == q.name
  {
    q.(rows := if FalsyInt(q.rows) then Some(1) else q.rows,
       columns := if FalsyInt(q.columns) then Some(40) else q.columns,
       value := if FalsyText(q.value) then Some([]) else q.value)
  }

  /** A falsy rows, columns or value gets its default, and a truthy one is
      kept. */
  lemma DefaultsFill(q: Question)
    ensures var r := WithDefaults(q);
      && r.rows == (if FalsyInt(q.rows) then Some(1) else q.rows)
      && r.columns == (if FalsyInt(q.columns) then Some(40) else q.columns)
      && r.value == (if FalsyText(q.value) then Some([]) else q.value)
  {
  }

  /** Defaulting twice is the same as defaulting once. */
  lemma DefaultsIdempotent(q: Question)
    ensures WithDefaults(WithDefaults(q)) == WithDefaults(q)
  {
  }

  /** The defaulting loop over `trial.questions`, updating each entry in place. */
  method ApplyDefaults(qs: array<Question>)
    modifies qs
    ensures forall i :: 0 <= i < qs.Length ==> qs[i] == WithDefaults(old(qs[i]))
  {
    for i := 0 to qs.Length
      invariant forall k :: 0 <= k < i ==> qs[k] == WithDefaults(old(qs[k]))
      invariant forall k :: i <= k < qs.Length ==> qs[k] == old(qs[k])
    {
      qs[i] := WithDefaults(qs[i]);
    }
  }

  /** The names of the questions, by original index. */
  function Names(qs: seq<Question>): (names: seq<JsString>)
    ensures |names| == |qs|
    ensures forall i :: 0 <= i < |qs| ==> names[i] == qs[i].name
  {
    seq(|qs|, i requires 0 <= i < |qs| => qs[i].name)
  }

  // ------------------------------------------------------------ order

  /** `questions.map((_, i) => i)`. */
  function Identity(n: nat): (r: seq<nat>)
    ensures |r| == n
    ensures forall i :: 0 <= i < n ==> r[i] == i
  {
    seq(n, i => i)
  }

  /** p lists every question index below n exactly once. */
  ghost predicate IsPermutation(p: seq<nat>, n: nat) {
    multiset(p) == multiset(Identity(n))
  }

  /** The display order: the identity, or the runner's shuffle of it when
      `randomize_question_order` is set. The shuffle is the runner's, so its
      result is a parameter here, of which only that it permutes the identity
      is assumed. */
  function BuildOrder(n: nat, randomize: bool, shuffled: seq<nat>): (order: seq<nat>)
    requires randomize ==> IsPermutation(shuffled, n)
    ensures IsPermutation(order, n)
    ensures randomize ==> order == shuffled
    ensures !randomize ==> order == Identity(n)
  {
    if randomize then shuffled else Identity(n)
  }

  lemma {:induction false} IdentityCount(n: nat, x: nat)
    ensures multiset(Identity(n))[x] == if x < n then 1 else 0
  {
    if n > 0 {
      assert Identity(n) == Identity(n - 1) + [n - 1];
      IdentityCount(n - 1, x);
    }
  }

  /** A display order shows each of the n questions exactly once: it has n
      positions, each holding a valid question index, every index occurs, and
      no index occurs twice. */
  lemma PermutationIndices(p: seq<nat>, n: nat)
    requires IsPermutation(p, n)
    ensures |p| == n
    ensures forall i :: 0 <= i < |p| ==> p[i] < n
    ensures forall x :: 0 <= x < n ==> x in p
    ensures forall i, j :: 0 <= i < j < |p| ==> p[i] != p[j]
  {
    assert |p| == |multiset(p)| == |multiset(Identity(n))| == n;
    forall i | 0 <= i < |p|
      ensures p[i] < n
    {
      assert p[i] in multiset(p);
      IdentityCount(n, p[i]);
    }
    forall x | 0 <= x < n
      ensures x in p
    {
      IdentityCount(n, x);
      assert x in multiset(p);
    }
    forall i, j | 0 <= i < j < |p|
      ensures p[i] != p[j]
    {
      if p[i] == p[j] {
        assert p == p[..i] + [p[i]] + p[i + 1..j] + [p[j]] + p[j + 1..];
        assert multiset(p)[p[i]] >= 2;
        IdentityCount(n, p[i]);
        assert false;
      }
    }
  }
}
