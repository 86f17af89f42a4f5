/**
 * The `pomScm` lookup (getScm in Arguments.java and in model/Arguments.java): the developer
 * connection if set, else the connection, else a failure.
 */
module ScmLookup {
  import opened Wrappers
  import opened Failures

  /** The <scm> section of a POM. */
  datatype Scm = Scm(developerConnection: Option<string>, connection: Option<string>)

  function Connection(scm: Scm): Result<string, Failure> {
    if scm.developerConnection.Some? then Ok(scm.developerConnection.value)
    else if scm.connection.Some? then Ok(scm.connection.value)
    else Err(ScmNotDefined)
  }

  /**
   * getScm as written: a POM without <scm> makes project.getScm() null, and reading its
   * developer connection throws a NullPointerException.
   */
  function GetScmAsWritten(scm: Option<Scm>): (r: Result<string, Failure>)
    ensures r.Ok? <==> scm.Some? && (scm.value.developerConnection.Some? || scm.value.connection.Some?)
    ensures r.Ok? && scm.value.developerConnection.Some? ==> r.value == scm.value.developerConnection.value
    ensures r.Ok? && scm.value.developerConnection.None? ==> r.value == scm.value.connection.value
    ensures scm.None? ==> r == Err(ScmIsNull)
  {
    match scm
    case None => Err(ScmIsNull)
    case Some(s) => Connection(s)
  }

  /** getScm as intended: a POM without <scm> is reported as "scm is not defined". */
  function GetScm(scm: Option<Scm>): (r: Result<string, Failure>)
    ensures r.Err? ==> r.error == ScmNotDefined
  {
    match scm
    case None => Err(ScmNotDefined)
    case Some(s) => Connection(s)
  }

  lemma GetScmPreference(scm: Option<Scm>)
    ensures GetScm(scm).Ok? <==>
              scm.Some? && (scm.value.developerConnection.Some? || scm.value.connection.Some?)
    ensures scm.Some? && scm.value.developerConnection.Some? ==>
              GetScm(scm) == Ok(scm.value.developerConnection.value)
    ensures scm.Some? && scm.value.developerConnection.None? && scm.value.connection.Some? ==>
              GetScm(scm) == Ok(scm.value.connection.value)
    ensures scm.Some? ==> GetScm(scm) == GetScmAsWritten(scm)
  {
  }

  /** The two differ only on a POM without <scm>, where the source throws the wrong exception. */
  lemma GetScmWithoutScmSection()
    ensures GetScmAsWritten(None) == Err(ScmIsNull)
    ensures GetScm(None) == Err(ScmNotDefined)
  {
  }
}
