/** Values shared by every puzzle variant: an optional value and the secret reward (types.ts). */
module Common {

  /** The usual Some/None wrapper; None stands for JavaScript's null/undefined or a failed generation. */
  datatype Option<+T> = None | Some(value: T)

  /** The four kinds of reward a puzzle can unlock (types.ts:10). */
  datatype SecretKind = TextSecret | UrlSecret | ImageSecret | VideoSecret

  /** The reward revealed when a puzzle is solved (types.ts:12-15). */
  datatype Secret = Secret(kind: SecretKind, value: string)

  /**
   * What a configuration step ends in: `Refused` when the authored input is rejected
   * before any request is made, `Failed` when the content provider returns nothing
   * usable, `Generated` with the content that the variant then plays.
   */
  datatype Generation<+T> = Refused | Failed | Generated(content: T)

  /** JavaScript's `secret.value` truthiness test: a secret is set when its value is non-empty. */
  predicate HasSecret(secret: Secret) {
    secret.value != ""
  }
}
