/** Plain JavaScript objects filled by assignment, as the `data` getters build them. */
module JsObjects {
  /**
   * The one key that `obj[key] = value` on a `{}` literal does not store as an
   * own property: it calls the `Object.prototype.__proto__` setter, which
   * ignores a string and makes an object the prototype. Either way
   * `Object.entries` and `JSON.stringify` do not see it.
   */
  const ProtoKey: string := "__proto__"
}
