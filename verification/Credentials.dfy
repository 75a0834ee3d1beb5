/** The keys under which the operator keeps credentials in a secret. */
module Credentials {
  import opened HashByteData

  // "username" and "password"
  const USERNAME: Str := [0x75, 0x73, 0x65, 0x72, 0x6E, 0x61, 0x6D, 0x65]
  const PASSWORD: Str := [0x70, 0x61, 0x73, 0x73, 0x77, 0x6F, 0x72, 0x64]
}
