/** The static descriptions argp works on: options, argps and their children (argp.h). */
module ArgpModel {
  import opened Optional

  /** One element of an `argp_option` vector. `takesArg` is `arg != NULL`; the flag bits are separate fields.
      The all-zero element that terminates a vector is not part of the sequence that models the vector. */
  datatype ArgpOption = ArgpOption(
    name: Option<string>,
    key: int,
    takesArg: bool,
    argOptional: bool,
    hidden: bool,
    alias: bool,
    isDoc: bool,
    group: int)
  {
    /** `__option_is_short`, with `isprint` as in the "C" locale. */
    predicate IsShort() {
      !isDoc && IsLetter(key)
    }
  }

  /** A key that can stand for a short option letter. */
  predicate IsLetter(key: int) {
    32 <= key <= 126
  }

  /** A `struct argp`: `options` is None for a null vector, `children` lists the child table up to its null end. */
  datatype Argp = Argp(
    options: Option<seq<ArgpOption>>,
    hasParser: bool,
    argsDoc: Option<string>,
    children: seq<Child>)
  {
    /** An argp with neither options nor a parser gets no group of its own. */
    predicate NeedsGroup() {
      options.Some? || hasParser
    }

    function Options(): seq<ArgpOption> {
      if options.Some? then options.value else []
    }
  }

  datatype Child = Child(argp: Argp, group: int, hasHeader: bool)

  /** The parsing state of one argp: parser.groups[i] in argp-parse.c.
      `parent` is the index of the parent group, `slots` the first child-input slot it owns. */
  datatype Group = Group(
    options: seq<ArgpOption>,
    hasParser: bool,
    parent: Option<nat>,
    parentIndex: nat,
    slots: nat,
    numChildren: nat)
}
