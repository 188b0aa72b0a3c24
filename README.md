# Miniflux translation printer and PKCE authorization, modelled in Dafny

This project models two small components of Miniflux.

- The translation printer of the `locale` package
  (`internal/locale/printer.go`). A `Printer` is bound to one language.
  It looks translation keys up in that language's dictionary and falls back
  to the key itself. `Plural` also picks one of several plural forms.
- The OAuth 2.0 authorization builder of the `oauth2` package
  (`internal/oauth2/authorization.go`). It draws a code verifier and a
  state. It derives the S256 code challenge of section 4.2 of RFC 7636 and
  asks the provider configuration for the redirect URL. It returns an
  immutable `Authorization` record.

Files:

- `wrappers.dfy`: the `Option` datatype.
- `locale.dfy`: module `Locale`. `Printer` is a datatype, because its only
  field is set once at construction. `Print` is a function. `Printf` and
  `Plural` are methods that follow the source's local updates and its
  `append` loop. Dictionary values are the datatype
  `Value = Str | AnyList | StrList | Other`, standing for Go's `string`,
  `[]interface{}`, `[]string` and every other dynamic type. An `Other`
  value carries an identity, so that distinct values of other types stay
  distinct. The formatting arguments have a type of their own, `Arg`.
- `bytes.dfy`: module `Bytes`. It holds the `Byte` type and `Utf8Encode`.
  Go's `[]byte(s)` on a string of text gives its UTF-8 encoding.
- `base64url.dfy`: module `Base64Url`. This is unpadded base64url, Go's
  `base64.RawURLEncoding`, over the alphabet of section 5 of RFC 4648. It
  also has a strict decoder that accepts only canonical encodings. It serves
  as the encoder's inverse in round-trip proofs in both directions.
- `oauth2.dfy`: module `OAuth2`. It holds the `Authorization` record, its
  three accessors, `CodeChallenge` and `GenerateAuthorization`.

Collaborators become parameters:

- `catalog: string -> Option<Dict>` is `GetTranslationDict`. `None` means
  the dictionary failed to load.
- `forms: map<string, int -> nat>` is the `pluralForms` table.
  `Plural` requires it to hold a rule for the printer's language or a `"default"` rule.
- `sprint` and `sprintf` are `fmt.Sprint` and `fmt.Sprintf`, left
  uninterpreted.
- `randomHex: nat -> string` is `crypto.GenerateRandomStringHex`, as a
  function of the byte count.
- `sha256` is `sha256.Sum256`. It returns a 32-byte `Digest`.
- `authCodeURL(state, params)` is `config.AuthCodeURL`. It receives the
  state and the extra parameters in order.

## Model

| member | source | states |
|---|---|---|
| `Locale.NewPrinter` | internal/locale/printer.go:77-80 | the new printer is bound to exactly the given language |
| `Locale.Print` | internal/locale/printer.go:13-22 | the result is the stored string exactly when the dictionary loads and the key maps to a string; it is the key itself when the dictionary fails to load, when the key is missing, and when the value is not a string |
| `Locale.Printf` | internal/locale/printer.go:24-40 | the arguments are formatted with the stored string as template when there is one, and with the key as template in every failure case; so the template is always what `Print` returns |
| `Locale.Normalize` | internal/locale/printer.go:53-56 | the normalised list of a `[]interface{}` entry has the entry's length, and each position holds `Sprint` of the element at that position, in order |
| `Locale.Plural` | internal/locale/printer.go:42-75 | the result is the key when the dictionary fails to load, when the entry is missing, and when the entry is neither kind of list; for a list entry it uses the language's own rule, or the `"default"` rule when the language has none; it formats the chosen form when the index is inside the list, and gives the key when the index is past the end |
| `Bytes.EncodeRune` | internal/oauth2/authorization.go:35 | one character becomes 1 to 4 bytes; the lead byte announces the length; the bytes carry exactly the character's code point; the encoding is a single byte equal to the code exactly when the character is ASCII; otherwise every byte after the lead byte is a continuation byte |
| `Bytes.EncodeRuneInjective` | internal/oauth2/authorization.go:35 | two characters with the same encoding are equal |
| `Bytes.Utf8Encode` | internal/oauth2/authorization.go:35 | a string has at least as many bytes as characters; an ASCII string, such as a hex verifier, has exactly one byte per character, equal to the character's code |
| `Bytes.Utf8EncodeInjective` | internal/oauth2/authorization.go:35 | two strings with the same bytes are equal, so the digest is taken over bytes that determine the verifier |
| `Base64Url.Symbol` | internal/oauth2/authorization.go:42 | each 6-bit value maps to a character of the URL and filename safe alphabet, never to `=` |
| `Base64Url.SymbolValue` | internal/oauth2/authorization.go:42 | a character has a 6-bit value exactly when it is in the alphabet, and `Symbol` maps that value back to the character; so the alphabet has no two symbols alike |
| `Base64Url.Sextets` | internal/oauth2/authorization.go:42 | `n` bytes split into `(8n + 5) / 6` groups of 6 bits, with no padding |
| `Base64Url.Symbols` | internal/oauth2/authorization.go:42 | the symbols of a list of 6-bit values keep its length and order |
| `Base64Url.Encode` | internal/oauth2/authorization.go:42 | the encoding of `n` bytes has `(8n + 5) / 6` characters, all from `A-Z a-z 0-9 - _`, none of them `=` |
| `Base64Url.SymbolValues` | internal/oauth2/authorization.go:42 | a string decodes to 6-bit values exactly when all its characters are in the alphabet, one value per character |
| `Base64Url.DecodeEncode` | internal/oauth2/authorization.go:42 | decoding the encoding gives back the bytes exactly |
| `Base64Url.EncodeDecode` | internal/oauth2/authorization.go:42 | a string the strict decoder accepts is exactly the encoding of what it decodes to, so every byte string has one canonical encoding |
| `Base64Url.QuantumBits` | internal/oauth2/authorization.go:42 | in a full group, the four 6-bit values, most significant first, hold the same 24 bits as the three bytes in order |
| `Base64Url.EncodeInjective` | internal/oauth2/authorization.go:42 | two byte strings with the same encoding are equal, so the challenge determines the digest |
| `OAuth2.CodeChallenge` | internal/oauth2/authorization.go:35-42 | the S256 challenge is 43 characters of the base64url alphabet with no `=`; it decodes to the SHA-256 digest of the verifier's bytes |
| `OAuth2.ChallengeParams` | internal/oauth2/authorization.go:41-42 | there are exactly two extra parameters; `code_challenge_method` occurs once, with value `S256`; `code_challenge` occurs once, with the challenge as value |
| `OAuth2.GenerateAuthorization` | internal/oauth2/authorization.go:33-50 | the verifier comes from the generator asked for 32 bytes; the state comes from the generator asked for 24 bytes; the redirect URL is the provider's URL for that same state, with the S256 challenge of the returned verifier as extra parameter |
| `OAuth2.AccessorsReturnStoredValues` | internal/oauth2/authorization.go:15-31 | `RedirectURL`, `State` and `CodeVerifier` return exactly the values the record was built with |
| `OAuth2.URLDependsOnVerifierOnlyThroughDigest` | internal/oauth2/authorization.go:34-43 | two runs with the same state whose verifiers have the same digest build the same URL, so the verifier reaches the provider only through its digest |

## Left out

- `GetTranslationDict` and the contents of `pluralForms` are not part of this model. They are parameters.
- `fmt.Sprint` and `fmt.Sprintf` are uninterpreted functions. What formatting does to the template and the arguments is not modelled.
- Locale.Plural: a plural rule is modelled as returning a `nat`. The source indexes the list after checking only the upper bound, so a negative index would make Go panic. That panic is not modelled.
- Locale.Plural: a rule is required for the printer's language or under `"default"`. When a language has no rule of its own and there is no `"default"` rule, the source would call a nil function and panic.
- Locale.Plural: `sprint` is uninterpreted, so what it gives for a value is not modelled. Distinct elements of an `[]interface{}` entry are still distinct inputs to it.
- `crypto.GenerateRandomStringHex` is not part of this model. The generator is a function of the byte count. The two draws use different counts and stand for independent draws; their independence and randomness cannot be stated here. The source shown does not fix the output length or alphabet of the generated strings, so the model does not assert 48 or 64 hex characters.
- No error path for a failing entropy source. `GenerateAuthorization` has no error result in the source, so the model has none either.
- SHA-256 is an abstract function returning 32 bytes. Its internals are not modelled.
- `oauth2.Config.AuthCodeURL` is an abstract function of the state and the extra parameters. URL assembly and query-string escaping are not modelled. So "`code_challenge_method=S256` appears once" is stated about the parameters given to the URL builder, not about the URL text.
- `Base64Url.Decode` has no counterpart in the source. It exists only to prove that the encoding loses nothing and is canonical. It rejects non-zero unused bits in a final group, as Go's strict decoding mode does.
- Go strings that are not valid UTF-8 are not modelled. Strings are sequences of Unicode scalar values.
- `*Printer` and `*Authorization` are pointers in Go. Their fields are never written after construction, so they are modelled as immutable values.
- Concurrency, freedom from collisions, and independence between calls are statistical or concurrent properties. They are not stated.
