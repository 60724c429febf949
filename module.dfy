/** A module is named by the first component of a file's path relative to the
    repository root (module.rs). */
module Modules {

  import opened Wrappers
  import opened Paths

  datatype ModuleFromComponentError = InvalidComponent(text: string)

  /** `Module(String)`; `From<String>` is this constructor. Its rendering is the wrapped text. */
  datatype Module = Module(name: string)

  function Render(m: Module): string
  {
    m.name
  }

  /** `TryFrom<Component>`: only a plain name is a module; every other component is
      rejected with its own text. */
  function FromComponent(c: Component): (r: Result<Module, ModuleFromComponentError>)
    ensures r.Ok? <==> c.Normal?
    ensures r.Ok? ==> r.value.name == ComponentText(c)
    ensures r.Err? ==> r.error == InvalidComponent(ComponentText(c))
  {
    match c
    case Normal(name) => Ok(Module(name))
    case _ => Err(InvalidComponent(ComponentText(c)))
  }

  /** The three special components are told apart by their texts. */
  lemma SpecialComponentsRejected()
    ensures FromComponent(RootDir) == Err(InvalidComponent("/"))
    ensures FromComponent(CurDir) == Err(InvalidComponent("."))
    ensures FromComponent(ParentDir) == Err(InvalidComponent(".."))
    ensures forall t :: FromComponent(Prefix(t)) == Err(InvalidComponent(t))
  {
  }

  /** Two modules render equal exactly when they are equal, so the string-based
      edge equality agrees with the derived one on modules. */
  lemma RenderInjective(a: Module, b: Module)
    ensures Render(a) == Render(b) <==> a == b
  {
  }
}
