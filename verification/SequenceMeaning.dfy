/** What the reference executor's sequence instructions compute, element by element
    and for every operand, with the two kinds of failure told apart. */
module SequenceMeaning {
  import opened Mncs

  /** `v` is the sequence with length `n` and these elements. */
  ghost predicate Elementwise(v: Value, n: int, at: int -> Value) {
    v.SeqV? && |v.elems| == n && forall k | 0 <= k < n :: v.elems[k] == at(k)
  }

  lemma ProjectMeans(inst: Inst, env: Env)
    requires inst.SequenceProject? && IsSeq(env, inst.sequence) && IsInt(env, inst.index)
    ensures var es, i, r := env[inst.sequence].elems, env[inst.index].n, Evaluate(inst, env);
            && (0 <= i < |es| ==> r == Yields(es[i]))
            && (i >= |es| ==> r == if inst.evidence.RuntimeChecked? then Trap else Bad)
            && (i < 0 ==> r == Bad)
  {
  }

  /** One element changes; an index outside the declared length traps. */
  lemma ReplaceMeans(inst: Inst, env: Env)
    requires inst.SequenceReplace? && IsSeq(env, inst.source) && IsInt(env, inst.index) && inst.element in env
    ensures var es, i, x, r := env[inst.source].elems, env[inst.index].n, env[inst.element], Evaluate(inst, env);
            && (r == Trap <==> !(0 <= i < inst.length))
            && (r == Bad <==> |es| <= i < inst.length && 0 <= i)
            && (r.Yields? ==> Elementwise(r.v, |es|, k => if k == i then x else if 0 <= k < |es| then es[k] else x))
  {
  }

  /** The window takes the source's elements and the rest stays; a window that does not
      fit on either side traps. */
  lemma CopyMeans(inst: Inst, env: Env)
    requires inst.SequenceCopy? && IsSeq(env, inst.destination) && IsSeq(env, inst.source)
    requires IsInt(env, inst.dstAt) && IsInt(env, inst.srcAt) && IsInt(env, inst.len)
    ensures var into, from := env[inst.destination].elems, env[inst.source].elems;
            var at, start, n, r := env[inst.dstAt].n, env[inst.srcAt].n, env[inst.len].n, Evaluate(inst, env);
            && (r == Trap <==> at < 0 || start < 0 || n < 0 || at + n > inst.dstLength || start + n > |from|)
            && (r == Bad <==> r != Trap && at + n > |into|)
            && (r.Yields? ==>
                  Elementwise(r.v, |into|, k =>
                    if at <= k < at + n && 0 <= k - at + start < |from| then from[k - at + start]
                    else if 0 <= k < |into| then into[k] else IntV(0)))
  {
    hide Splice;
    if Evaluate(inst, env).Yields? {
      SpliceMeans(env[inst.destination].elems, env[inst.dstAt].n, env[inst.source].elems, env[inst.srcAt].n, env[inst.len].n);
    }
  }

  lemma SpliceMeans(into: seq<Value>, at: nat, from: seq<Value>, start: nat, n: nat)
    requires at + n <= |into| && start + n <= |from|
    ensures forall k | 0 <= k < |into| :: Splice(into, at, from, start, n)[k] == if at <= k < at + n then from[k - at + start] else into[k]
  {
  }

  /** The elements of the range; a bad range, or one longer than the capacity, traps. */
  lemma ViewMeans(inst: Inst, env: Env)
    requires inst.ViewConstruct? && IsSeq(env, inst.source) && IsInt(env, inst.start) && IsInt(env, inst.end)
    ensures var es, a, b, r := env[inst.source].elems, env[inst.start].n, env[inst.end].n, Evaluate(inst, env);
            && (r.Yields? <==> 0 <= a <= b <= |es| && b - a <= inst.viewCap)
            && (r.Yields? ==> Elementwise(r.v, b - a, k => if 0 <= a + k < |es| then es[a + k] else IntV(0)))
            && (!r.Yields? ==> r == Trap)
  {
  }
}
