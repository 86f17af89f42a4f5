/**
 * The exceptions the core throws, one constructor per distinct message.  Message() renders the
 * text the source passes to the exception's constructor.
 */
module Failures {

  datatype Failure =
    // model/Placeholders.java
    | InvalidPlaceholder(template: string)
    | UnknownPlaceholder(template: string)
    | NoBranch(reason: string)
    // model/Arguments.java eval
    | InvalidValue(value: string)
    | UnknownDirective(directive: string)
    | FilterFailed(reason: string)
    // argument binding, all variants
    | UnknownArgument(name: string, available: string)
    | UnknownBuildArgument(name: string, available: string)
    | UnknownPomArgument(name: string)
    | UnknownBuildPrefixed(name: string)
    | MandatoryMissing(name: string)
    | ScmNotDefined
    | ScmIsNull
    | FileNotFound(path: string)
    // Source.java tag
    | NoTagSeparator(repositoryTag: string)
  {
    function Message(): string {
      match this
      case InvalidPlaceholder(t) => "invalid placeholder: " + t
      case UnknownPlaceholder(t) => "unknown placeholder: " + t
      case NoBranch(reason) => "cannot determine current branch: " + reason
      case InvalidValue(v) => "invalid value: " + v
      case UnknownDirective(d) => "unknown directive: " + d
      case FilterFailed(reason) => reason
      case UnknownArgument(n, a) => "unknown argument: " + n + "\n" + a
      case UnknownBuildArgument(n, a) => "unknown build argument: " + n + "\n" + a
      case UnknownPomArgument(n) => "unknown pom argument: " + n
      case UnknownBuildPrefixed(n) => "unknown build argument: " + n
      case MandatoryMissing(n) => "mandatory argument is missing: " + n
      case ScmNotDefined => "pomScm argument: scm is not defined in this project"
      case ScmIsNull => ""
      case FileNotFound(p) => p
      case NoTagSeparator(t) => t
    }
  }
}
