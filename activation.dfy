/** ModuleActivationException: what its constructors hand to ModuleException and how
    it prints itself. */
module Activation {
  import opened Wrappers
  import opened Metadata

  /** A Throwable given as the cause, known by identity. */
  datatype Throwable = Throwable(id: nat)

  /** The message argument a constructor passes on: none at all (the superclass then
      chooses the message), or a message that may itself be null. */
  datatype MessageArgument = NoMessageArgument | MessageArgument(msg: Option<string>)

  /** The arguments a ModuleActivationException hands to ModuleException. */
  datatype ModuleActivationException = ModuleActivationException(meta: Option<Meta>, message: MessageArgument, cause: Option<Throwable>)

  /** The (meta, org) constructor: no message argument. */
  function WithCause(meta: Option<Meta>, org: Option<Throwable>): (e: ModuleActivationException)
    ensures e.meta == meta && e.message == NoMessageArgument && e.cause == org
  {
    ModuleActivationException(meta, NoMessageArgument, org)
  }

  /** The (meta, msg) constructor: the message and a null cause. */
  function WithMessage(meta: Option<Meta>, msg: Option<string>): (e: ModuleActivationException)
    ensures e.meta == meta && e.message == MessageArgument(msg) && e.cause == None
  {
    ModuleActivationException(meta, MessageArgument(msg), None)
  }

  /** The (meta, msg, org) constructor. */
  function WithMessageAndCause(meta: Option<Meta>, msg: Option<string>, org: Option<Throwable>): (e: ModuleActivationException)
    ensures e.meta == meta && e.message == MessageArgument(msg) && e.cause == org
  {
    ModuleActivationException(meta, MessageArgument(msg), org)
  }

  /** The message constructor is the three-argument one with a null cause, and no
      constructor drops the descriptor. */
  lemma ConstructorsAgree(meta: Option<Meta>, msg: Option<string>, org: Option<Throwable>)
    ensures WithMessage(meta, msg) == WithMessageAndCause(meta, msg, None)
    ensures WithCause(meta, org).meta == WithMessage(meta, msg).meta == WithMessageAndCause(meta, msg, org).meta
    ensures WithCause(meta, org) != WithMessageAndCause(meta, msg, org)
  {
  }

  const Prefix: string := "ModuleActivationException: could not activate Module "

  /** toString: the fixed prefix, the descriptor's text or "null", then ": " and the
      message when getMessage() is not null. `ofMeta` is ModuleMeta.toString and
      `message` what getMessage() returns. */
  function ToString(e: ModuleActivationException, ofMeta: Meta -> string, message: Option<string>): (r: string)
    ensures |r| >= |Prefix| && r[..|Prefix|] == Prefix
  {
    Prefix
    + (match e.meta case Some(m) => ofMeta(m) case None => "null")
    + (match message case Some(msg) => ": " + msg case None => "")
  }

  /** toString splits back into the prefix, the descriptor's text and the message part,
      and distinct messages (a null one included) print differently. */
  lemma ToStringParts(e: ModuleActivationException, ofMeta: Meta -> string, message: Option<string>, other: Option<string>)
    ensures var metaText := match e.meta case Some(m) => ofMeta(m) case None => "null";
      var r := ToString(e, ofMeta, message);
      && |r| >= |Prefix| + |metaText|
      && r[|Prefix|..|Prefix| + |metaText|] == metaText
      && (message.None? <==> |r| == |Prefix| + |metaText|)
      && (message.Some? ==> r[|Prefix| + |metaText|..] == ": " + message.value)
    ensures message != other ==> ToString(e, ofMeta, message) != ToString(e, ofMeta, other)
  {
    var metaText := match e.meta case Some(m) => ofMeta(m) case None => "null";
    var r := ToString(e, ofMeta, message);
    var r' := ToString(e, ofMeta, other);
    var n := |Prefix| + |metaText|;
    assert r[..n] == Prefix + metaText && r'[..n] == Prefix + metaText;
    assert r[|Prefix|..n] == metaText by { assert r[|Prefix|..n] == (Prefix + metaText)[|Prefix|..]; }
    if message.Some? {
      assert r[n..] == ": " + message.value;
    }
    if other.Some? {
      assert r'[n..] == ": " + other.value;
    }
    if message.Some? && other.Some? && message != other {
      assert (": " + message.value)[2..] == message.value;
      assert (": " + other.value)[2..] == other.value;
    }
  }
}
