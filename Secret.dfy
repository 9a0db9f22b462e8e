/** `get_secret`: the secret comes from the `--secret` option when it is given
    and non-empty, otherwise from the `TOTP_SECRET` environment variable, whose
    value is passed in here instead of being read. */
module Secret {
  import opened Results

  /** `get_secret(cli)` with `os.getenv("TOTP_SECRET")` given as `env`. */
  function GetSecret(cli: Option<string>, env: Option<string>): (r: Result<string>)
    ensures r.Ok? <==> Supplied(cli) || Supplied(env)
    ensures r.Ok? ==> r.value != ""
    ensures Supplied(cli) ==> r == Ok(cli.value)
    ensures !Supplied(cli) && Supplied(env) ==> r == Ok(env.value)
    ensures r.Err? ==> r.error == MissingSecret
  {
    if Supplied(cli) then Ok(cli.value)
    else if Supplied(env) then Ok(env.value)
    else Err(MissingSecret)
  }
}
