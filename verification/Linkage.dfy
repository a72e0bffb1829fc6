/**
 The part of LLVM's global values that the backend passes read and write.
 */
module Linkage {

  datatype LinkageType =
    | External | AvailableExternally | LinkOnceAny | LinkOnceODR | WeakAny | WeakODR
    | Appending | Internal | Private | ExternalWeak | Common

  datatype Visibility = Default | Hidden | Protected

  datatype Body = NoBody | Body(id: nat, instructions: nat)

  /** A function or a variable; a variable's body is its initializer. */
  datatype Global = Global(
    name: string, isFunction: bool, body: Body, linkage: LinkageType, visibility: Visibility, dsoLocal: bool)
  {
    predicate IsDeclaration() { body.NoBody? }
  }

  predicate IsLocal(l: LinkageType) {
    l.Internal? || l.Private?
  }

  predicate IsDiscardableIfUnused(l: LinkageType) {
    l.LinkOnceAny? || l.LinkOnceODR? || IsLocal(l) || l.AvailableExternally?
  }

  predicate IsWeakForLinker(l: LinkageType) {
    l.WeakAny? || l.WeakODR? || l.LinkOnceAny? || l.LinkOnceODR? || l.Common? || l.ExternalWeak?
  }

  predicate IsImplicitDsoLocal(g: Global) {
    IsLocal(g.linkage) || (g.visibility != Default && !g.linkage.ExternalWeak?)
  }

  function WithImplicitDsoLocal(g: Global): Global {
    if IsImplicitDsoLocal(g) then g.(dsoLocal := true) else g
  }

  function SetLinkage(g: Global, l: LinkageType): Global {
    WithImplicitDsoLocal(g.(linkage := l, visibility := if IsLocal(l) then Default else g.visibility))
  }

  function SetVisibility(g: Global, v: Visibility): Global {
    WithImplicitDsoLocal(g.(visibility := v))
  }

  /** Function::deleteBody also makes the function external. */
  function DeleteBody(g: Global): Global {
    SetLinkage(g.(body := NoBody), External)
  }

  function DropInitializer(g: Global): Global {
    g.(body := NoBody)
  }
}
