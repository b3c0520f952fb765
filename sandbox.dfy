/** The execution step of `fetchAndDecode` (src/index.ts:83-97, 139). The
    DOM library and the script engine are foreign code: they appear as the
    functions of a `Sandbox` value over an abstract DOM state `D`. */
module Sandbox {
  import opened Links

  const CONTAINER_OPEN: string := "<div id=\"container\">"
  const CONTAINER_CLOSE: string := "</div>"

  /** The markup assigned to `document.body.innerHTML`. */
  function ContainerMarkup(fragment: string): (m: string)
    ensures |m| == |CONTAINER_OPEN| + |fragment| + |CONTAINER_CLOSE|
    ensures m[|CONTAINER_OPEN|..|CONTAINER_OPEN| + |fragment|] == fragment
  {
    CONTAINER_OPEN + fragment + CONTAINER_CLOSE
  }

  /** `window.eval(code)` either completes or throws; in both cases the
      DOM keeps whatever the script changed before it stopped. */
  datatype EvalOutcome<D> = Completed(dom: D) | Threw(dom: D)

  /** The foreign collaborators over a DOM state `D` whose `script`
      elements are handles of type `H`: the DOM built from a body markup,
      the `script` elements in document order (`querySelectorAll`, taken
      once), the `textContent` of one element in a given DOM (`""` for
      null), one `window.eval`, the changes the scripts' own timers make
      during the settle delay, and what the collector reads once it has
      passed. */
  datatype Sandbox<!D, !H> = Sandbox(
    load: string -> D,
    scriptsOf: D -> seq<H>,
    textOf: (D, H) -> string,
    eval: (D, string) -> EvalOutcome<D>,
    settle: D -> D,
    observe: D -> MutatedDocument)

  /** The DOM after visiting the `scripts` in order. Each body is read
      when its turn comes, so it reflects what earlier scripts changed;
      an empty body is skipped (`if (code)`), and a script that throws
      does not stop the rest. */
  function AfterScripts<D, H>(
      textOf: (D, H) -> string, eval: (D, string) -> EvalOutcome<D>, dom: D, scripts: seq<H>): D
    decreases |scripts|
  {
    if scripts == [] then dom
    else
      var before := AfterScripts(textOf, eval, dom, scripts[..|scripts| - 1]);
      var code := textOf(before, scripts[|scripts| - 1]);
      if code == "" then before else eval(before, code).dom
  }

  /** Catching per script: whether a script threw never changes the
      outcome, only the DOM changes count. */
  lemma {:induction false} ThrowsAreSwallowed<D, H>(
      textOf: (D, H) -> string,
      eval: (D, string) -> EvalOutcome<D>, eval': (D, string) -> EvalOutcome<D>,
      dom: D, scripts: seq<H>)
    requires forall d, c :: eval(d, c).dom == eval'(d, c).dom
    ensures AfterScripts(textOf, eval, dom, scripts) == AfterScripts(textOf, eval', dom, scripts)
  {
    if scripts != [] {
      ThrowsAreSwallowed(textOf, eval, eval', dom, scripts[..|scripts| - 1]);
    }
  }

  /** A throwing script does not stop the scripts after it: running a list
      is running its first part and then the rest from the DOM it left. */
  lemma {:induction false} AfterScriptsSplits<D, H>(
      textOf: (D, H) -> string, eval: (D, string) -> EvalOutcome<D>,
      dom: D, first: seq<H>, rest: seq<H>)
    ensures AfterScripts(textOf, eval, dom, first + rest)
            == AfterScripts(textOf, eval, AfterScripts(textOf, eval, dom, first), rest)
    decreases |rest|
  {
    if rest == [] {
      assert first + rest == first;
    } else {
      var init := rest[..|rest| - 1];
      assert (first + rest)[..|first + rest| - 1] == first + init;
      AfterScriptsSplits(textOf, eval, dom, first, init);
    }
  }

  /** The `scripts.forEach` loop with its `try`/`catch` around
      `window.eval`, reading each `textContent` at that script's turn. */
  method RunScripts<D, H>(
      textOf: (D, H) -> string, eval: (D, string) -> EvalOutcome<D>, dom0: D, scripts: seq<H>)
    returns (dom: D)
    ensures dom == AfterScripts(textOf, eval, dom0, scripts)
  {
    dom := dom0;
    for i := 0 to |scripts|
      invariant dom == AfterScripts(textOf, eval, dom0, scripts[..i])
    {
      var code := textOf(dom, scripts[i]);
      if code != "" {
        var outcome := eval(dom, code);
        match outcome
        case Completed(d) => dom := d;
        case Threw(d) => dom := d;
      }
      assert scripts[..i + 1][..i] == scripts[..i];
    }
    assert scripts[..|scripts|] == scripts;
  }
}
