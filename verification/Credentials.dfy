/** The configured users and plain validation, with no cache in front of it. */
module Credentials {

  datatype Credential = Plaintext(password: string) | Sha512Crypt(hash: string)

  type Users = map<string, Credential>

  /** Whether a password matches a crypt hash: `verify(password, hash)`. */
  type Verifier = (string, string) -> bool

  predicate Validate(users: Users, verify: Verifier, username: string, password: string) {
    username in users &&
    match users[username]
    case Plaintext(expected) => expected == password
    case Sha512Crypt(hash) => verify(password, hash)
  }
}
